/** Across the chains: mints map injectively to locks, so no more is minted than is locked. */
module Conservation {
  import opened Source
  import opened Destination
  import opened Relay
  import opened Safety
  import opened Sums

  // ----- where a transaction's first lock stands among all locks -----

  lemma {:induction false} FirstLockPosition(chain: seq<SourceTx>, t: nat)
    requires t < |chain| && |chain[t].locks| > 0
    ensures |AllLocks(chain[..t])| < |AllLocks(chain)|
    ensures AllLocks(chain)[|AllLocks(chain[..t])|] == chain[t].locks[0]
    decreases |chain|
  {
    var n := |chain| - 1;
    if t < n {
      FirstLockPosition(chain[..n], t);
      assert chain[..n][..t] == chain[..t];
    }
  }

  lemma LaterTransactionsLockLater(chain: seq<SourceTx>, t: nat, u: nat)
    requires t < u < |chain| && |chain[t].locks| > 0
    ensures |AllLocks(chain[..t])| < |AllLocks(chain[..u])|
  {
    FirstLockPosition(chain[..u], t);
    assert chain[..u][..t] == chain[..t];
  }

  /** The nonce of the first lock of the transaction that mint k delivers. */
  function NonceOf(w: World, k: nat): nat
    requires k < |w.history| && w.history[k].tx < |w.chain| && |w.chain[w.history[k].tx].locks| > 0
  {
    w.chain[w.history[k].tx].locks[0].nonce
  }

  ghost predicate NoncesDefined(w: World) {
    && |w.history| == |w.dest.minted|
    && forall k :: 0 <= k < |w.history| ==> w.history[k].tx < |w.chain| && |w.chain[w.history[k].tx].locks| > 0
  }

  lemma NonceIsPosition(env: Env, w: World, t: nat)
    requires WorldInvariant(env, w) && t < |w.chain| && |w.chain[t].locks| > 0
    ensures w.chain[t].locks[0].nonce == |AllLocks(w.chain[..t])| < w.source.nextNonce
    ensures w.source.locks[w.chain[t].locks[0].nonce] == w.chain[t].locks[0]
  {
    FirstLockPosition(w.chain, t);
  }

  lemma DifferentMintsDifferentTransactions(env: Env, w: World, j: nat, k: nat)
    requires WorldInvariant(env, w) && j < k < |w.history|
    ensures w.history[j].tx != w.history[k].tx
  {
    assert DeliveryFits(env, w.chain, w.history[j], w.dest.minted[j]);
    assert DeliveryFits(env, w.chain, w.history[k], w.dest.minted[k]);
    assert w.dest.minted[j].txHash != w.dest.minted[k].txHash;
  }

  /** Different mints deliver locks with different nonces; each has the lock's recipient and amount. */
  lemma MintsInjectIntoLocks(env: Env, w: World)
    requires WorldInvariant(env, w)
    ensures NoncesDefined(w)
    ensures forall k: nat :: k < |w.history| ==>
      NonceOf(w, k) in w.source.locks
      && w.source.locks[NonceOf(w, k)].ethDestination == w.dest.minted[k].recipient
      && w.source.locks[NonceOf(w, k)].amount == w.dest.minted[k].amount
    ensures forall j: nat, k: nat :: j < k < |w.history| ==> NonceOf(w, j) != NonceOf(w, k)
  {
    forall k: nat | k < |w.history|
      ensures w.history[k].tx < |w.chain| && |w.chain[w.history[k].tx].locks| > 0
      ensures NonceOf(w, k) in w.source.locks
      ensures w.source.locks[NonceOf(w, k)].ethDestination == w.dest.minted[k].recipient
      ensures w.source.locks[NonceOf(w, k)].amount == w.dest.minted[k].amount
    {
      assert DeliveryFits(env, w.chain, w.history[k], w.dest.minted[k]);
      NonceIsPosition(env, w, w.history[k].tx);
    }
    forall j: nat, k: nat | j < k < |w.history|
      ensures NonceOf(w, j) != NonceOf(w, k)
    {
      DifferentMintsDifferentTransactions(env, w, j, k);
      var t, u := w.history[j].tx, w.history[k].tx;
      NonceIsPosition(env, w, t);
      NonceIsPosition(env, w, u);
      LaterTransactionsLockLater(w.chain, if t < u then t else u, if t < u then u else t);
    }
  }

  // ----- the sums -----

  function Amounts(events: seq<LockDetails>): (f: map<nat, nat>)
    ensures forall i: nat :: i in f <==> i < |events|
  {
    map i: nat | i < |events| :: events[i].amount
  }

  lemma {:induction false} TotalIsSumOfValues(events: seq<LockDetails>)
    ensures SumValues(Amounts(events)) == TotalAmount(events)
  {
    var f := Amounts(events);
    if |events| == 0 {
      assert f.Keys == {};
    } else {
      var n: nat := |events| - 1;
      var g := Amounts(events[..n]);
      TotalIsSumOfValues(events[..n]);
      SumOverPick(f, f.Keys, n);
      assert f.Keys - {n} == g.Keys;
      SumOverSame(f, g, g.Keys);
    }
  }

  /** The nonces the mints deliver, in the order of minting. */
  function Nonces(w: World): (n: seq<nat>)
    requires NoncesDefined(w)
    ensures |n| == |w.history|
  {
    seq(|w.history|, k requires 0 <= k < |w.history| => NonceOf(w, k))
  }

  lemma {:induction false} MintedIsSumAt(f: map<nat, nat>, minted: seq<BridgeMinted>, nonces: seq<nat>)
    requires |minted| == |nonces|
    requires forall k :: 0 <= k < |nonces| ==> nonces[k] in f && f[nonces[k]] == minted[k].amount
    ensures SumMinted(minted) == SumAt(f, nonces)
  {
    var n := |minted| - 1;
    if |minted| > 0 {
      MintedIsSumAt(f, minted[..n], nonces[..n]);
    }
  }

  /** The nonces of the first locks of all transactions. */
  function FirstNonces(w: World): set<nat> {
    set t | 0 <= t < |w.chain| && |w.chain[t].locks| > 0 :: w.chain[t].locks[0].nonce
  }

  lemma FirstNoncesAreLocks(env: Env, w: World)
    requires WorldInvariant(env, w)
    ensures FirstNonces(w) <= Amounts(w.source.events).Keys
  {
    forall k: nat | k in FirstNonces(w)
      ensures k in Amounts(w.source.events)
    {
      var t :| 0 <= t < |w.chain| && |w.chain[t].locks| > 0 && w.chain[t].locks[0].nonce == k;
      NonceIsPosition(env, w, t);
    }
  }

  lemma MintedNoncesAreFirst(env: Env, w: World)
    requires WorldInvariant(env, w) && NoncesDefined(w)
    ensures Members(Nonces(w)) <= FirstNonces(w)
  {
    hide WorldInvariant;
    forall k: nat | k in Members(Nonces(w))
      ensures k in FirstNonces(w)
    {
      var j :| 0 <= j < |Nonces(w)| && Nonces(w)[j] == k;
      assert k == NonceOf(w, j) == w.chain[w.history[j].tx].locks[0].nonce;
    }
  }

  /** The supply is the sum over the locks the mints deliver, which are different ones. */
  lemma SupplyIsSumOfDeliveredLocks(env: Env, w: World)
    requires WorldInvariant(env, w)
    ensures NoncesDefined(w) && Distinct(Nonces(w)) && Members(Nonces(w)) <= Amounts(w.source.events).Keys
    ensures w.dest.totalSupply == SumOver(Amounts(w.source.events), Members(Nonces(w)))
  {
    MintsInjectIntoLocks(env, w);
    var f, nonces := Amounts(w.source.events), Nonces(w);
    hide RunFits, HistoryFits, TxFits, SumOver, SumAt;
    forall k | 0 <= k < |nonces|
      ensures nonces[k] in f && f[nonces[k]] == w.dest.minted[k].amount
    {
      assert nonces[k] == NonceOf(w, k);
    }
    MintedIsSumAt(f, w.dest.minted, nonces);
    DistinctKeysSum(f, nonces);
  }

  /**
   * In every reachable world the minted supply is the sum of distinct locks, each the first of its
   * transaction; so it is at most the sum of the first locks, and that at most the balance locked.
   */
  lemma MintedAtMostLocked(env: Env, w: World)
    requires Reachable(env, w)
    ensures NoncesDefined(w) && Distinct(Nonces(w))
    ensures Members(Nonces(w)) <= FirstNonces(w) <= Amounts(w.source.events).Keys
    ensures w.dest.totalSupply == SumOver(Amounts(w.source.events), Members(Nonces(w)))
    ensures w.dest.totalSupply <= SumOver(Amounts(w.source.events), FirstNonces(w)) <= w.source.balance
  {
    ReachableKeeps(env, w);
    SupplyIsSumOfDeliveredLocks(env, w);
    FirstNoncesAreLocks(env, w);
    MintedNoncesAreFirst(env, w);
    BalanceIsSumOfLocks(env, w);
    hide WorldInvariant, Amounts, FirstNonces, Nonces, NoncesDefined, SumOver, Distinct, Members;
    var f := Amounts(w.source.events);
    SumOverSubset(f, Members(Nonces(w)), FirstNonces(w));
    SumOverSubset(f, FirstNonces(w), f.Keys);
  }

  lemma BalanceIsSumOfLocks(env: Env, w: World)
    requires WorldInvariant(env, w)
    ensures var f := Amounts(w.source.events);
      w.source.balance == SumOver(f, f.Keys)
  {
    TotalIsSumOfValues(w.source.events);
  }
}
