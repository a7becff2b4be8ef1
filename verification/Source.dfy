/** `BridgeSource`: locking native tokens under increasing nonces. */
module Source {
  import opened Words

  type Address = s: Bytes | |s| == 20 witness seq(20, _ => 0)

  const U256: nat := 0x1_0000_0000_0000_0000_0000_0000_0000_0000_0000_0000_0000_0000_0000_0000_0000_0000

  type Uint256 = x: int | 0 <= x < U256

  /** The record stored in `locks`, which is also what the Lock event carries. */
  datatype LockDetails = LockDetails(sender: Address, amount: Uint256, ethDestination: Address, nonce: Uint256)

  datatype SourceState = SourceState(
    locks: map<nat, LockDetails>,
    nextNonce: Uint256,
    balance: nat,
    events: seq<LockDetails>)

  const EMPTY_SOURCE: SourceState := SourceState(map[], 0, 0, [])

  datatype LockCall = LockCall(sender: Address, value: Uint256, ethDestination: Address)

  /** A call goes through unless it sends nothing or the nonce counter is at its last value. */
  predicate LockSucceeds(s: SourceState, c: LockCall) {
    c.value > 0 && s.nextNonce + 1 < U256
  }

  function Recorded(s: SourceState, c: LockCall): LockDetails {
    LockDetails(c.sender, c.value, c.ethDestination, s.nextNonce)
  }

  /** A call that reverts leaves no trace. */
  function ApplyLock(s: SourceState, c: LockCall): SourceState {
    if !LockSucceeds(s, c) then s
    else SourceState(
      s.locks[s.nextNonce := Recorded(s, c)],
      s.nextNonce + 1,
      s.balance + c.value,
      s.events + [Recorded(s, c)])
  }

  function RunLocks(s: SourceState, calls: seq<LockCall>): SourceState
    decreases |calls|
  {
    if |calls| == 0 then s else RunLocks(ApplyLock(s, calls[0]), calls[1..])
  }

  function TotalAmount(records: seq<LockDetails>): nat {
    if |records| == 0 then 0 else TotalAmount(records[..|records| - 1]) + records[|records| - 1].amount
  }

  /** The keys are the places of the events, and each record carries its key. */
  ghost predicate RecordsFit(locks: map<nat, LockDetails>, events: seq<LockDetails>) {
    && (forall k: nat :: k in locks <==> k < |events|)
    && (forall k: nat :: k < |events| ==> locks[k] == events[k] && events[k].nonce == k && events[k].amount > 0)
  }

  /** The keys are 0..nextNonce-1, each record carries its key, and the balance is what they record. */
  ghost predicate SourceInvariant(s: SourceState) {
    && |s.events| == s.nextNonce
    && RecordsFit(s.locks, s.events)
    && s.balance == TotalAmount(s.events)
  }

  lemma TotalAppend(records: seq<LockDetails>, last: LockDetails)
    ensures TotalAmount(records + [last]) == TotalAmount(records) + last.amount
  {
    assert (records + [last])[..|records|] == records;
  }

  lemma OneMoreRecord(locks: map<nat, LockDetails>, events: seq<LockDetails>, record: LockDetails)
    requires RecordsFit(locks, events) && record.nonce == |events| && record.amount > 0
    ensures RecordsFit(locks[|events| := record], events + [record])
  {
  }

  lemma ApplyLockKeeps(s: SourceState, c: LockCall)
    requires SourceInvariant(s)
    ensures SourceInvariant(ApplyLock(s, c))
    ensures s.events <= ApplyLock(s, c).events
  {
    if LockSucceeds(s, c) {
      hide TotalAmount, RecordsFit;
      TotalAppend(s.events, Recorded(s, c));
      OneMoreRecord(s.locks, s.events, Recorded(s, c));
    }
  }

  /** Over any calls the invariant stays, and a record once written never changes. */
  lemma {:induction false} RunLocksKeeps(s: SourceState, calls: seq<LockCall>)
    requires SourceInvariant(s)
    ensures var t := RunLocks(s, calls);
      && SourceInvariant(t)
      && s.nextNonce <= t.nextNonce
      && s.events <= t.events
      && forall k: nat :: k in s.locks ==> k in t.locks && t.locks[k] == s.locks[k]
    decreases |calls|
  {
    if |calls| > 0 {
      ApplyLockKeeps(s, calls[0]);
      RunLocksKeeps(ApplyLock(s, calls[0]), calls[1..]);
    }
  }

  lemma RunLocksFromEmpty(calls: seq<LockCall>)
    ensures SourceInvariant(RunLocks(EMPTY_SOURCE, calls))
  {
    RunLocksKeeps(EMPTY_SOURCE, calls);
  }

  // ----- which call a record comes from -----

  /** One call: exactly one new record with the call's own data under the old nonce, or nothing at all. */
  lemma LockRecordsItsCall(s: SourceState, sender: Address, value: Uint256, ethDestination: Address)
    ensures var t := ApplyLock(s, LockCall(sender, value, ethDestination));
      if value > 0 && s.nextNonce + 1 < U256 then
        && t.nextNonce == s.nextNonce + 1 && t.balance == s.balance + value
        && t.locks.Keys == s.locks.Keys + {s.nextNonce}
        && (forall k: nat :: k in s.locks && k != s.nextNonce ==> t.locks[k] == s.locks[k])
        && t.locks[s.nextNonce].sender == sender && t.locks[s.nextNonce].ethDestination == ethDestination
        && t.locks[s.nextNonce].amount == value && t.locks[s.nextNonce].nonce == s.nextNonce
        && t.events == s.events + [t.locks[s.nextNonce]]
      else t == s
  {
  }

  /** The calls that send something. */
  function Paid(calls: seq<LockCall>): seq<LockCall> {
    if |calls| == 0 then []
    else Paid(calls[..|calls| - 1]) + if calls[|calls| - 1].value > 0 then [calls[|calls| - 1]] else []
  }

  /** How many of n paid calls go through, starting from this nonce: all, until the counter is at its last value. */
  function RoomFor(n: nat, nextNonce: Uint256): nat {
    if n <= U256 - 1 - nextNonce then n else U256 - 1 - nextNonce
  }

  lemma {:induction false} RunLocksAppend(s: SourceState, calls: seq<LockCall>, last: LockCall)
    ensures RunLocks(s, calls + [last]) == ApplyLock(RunLocks(s, calls), last)
    decreases |calls|
  {
    if |calls| == 0 {
      assert calls + [last] == [last] && [last][1..] == [];
    } else {
      assert (calls + [last])[1..] == calls[1..] + [last];
      RunLocksAppend(ApplyLock(s, calls[0]), calls[1..], last);
    }
  }

  /** Over any calls, the new events record the paid calls one by one, in order, as long as there is room. */
  lemma {:induction false} EventsRecordPaidCalls(s: SourceState, calls: seq<LockCall>)
    ensures var t, paid, n := RunLocks(s, calls), Paid(calls), |s.events|;
      && |t.events| == n + RoomFor(|paid|, s.nextNonce) && s.events <= t.events
      && t.nextNonce == s.nextNonce + RoomFor(|paid|, s.nextNonce)
      && forall k :: 0 <= k < RoomFor(|paid|, s.nextNonce) ==>
           t.events[n + k] == LockDetails(paid[k].sender, paid[k].value, paid[k].ethDestination, s.nextNonce + k)
    decreases |calls|
  {
    if |calls| > 0 {
      var before, last := calls[..|calls| - 1], calls[|calls| - 1];
      assert before + [last] == calls;
      EventsRecordPaidCalls(s, before);
      RunLocksAppend(s, before, last);
      LockRecordsItsCall(RunLocks(s, before), last.sender, last.value, last.ethDestination);
      hide ApplyLock, RunLocks;
    }
  }

  class BridgeSource {
    var locks: map<nat, LockDetails>
    var nextNonce: Uint256
    var balance: nat
    var events: seq<LockDetails>

    function State(): SourceState
      reads this
    {
      SourceState(locks, nextNonce, balance, events)
    }

    constructor ()
      ensures State() == EMPTY_SOURCE
    {
      locks, nextNonce, balance, events := map[], 0, 0, [];
    }

    /** `lock`, payable: msg.sender and msg.value are parameters; false means reverted. */
    method Lock(sender: Address, value: Uint256, ethDestination: Address) returns (ok: bool)
      requires SourceInvariant(State())
      modifies this
      ensures SourceInvariant(State())
      ensures ok <==> LockSucceeds(old(State()), LockCall(sender, value, ethDestination))
      ensures State() == ApplyLock(old(State()), LockCall(sender, value, ethDestination))
      ensures ok <==> value > 0 && old(nextNonce) + 1 < U256
      ensures ok ==>
        && nextNonce == old(nextNonce) + 1 && balance == old(balance) + value
        && locks == old(locks)[old(nextNonce) := LockDetails(sender, value, ethDestination, old(nextNonce))]
        && events == old(events) + [LockDetails(sender, value, ethDestination, old(nextNonce))]
      ensures !ok ==>
        locks == old(locks) && nextNonce == old(nextNonce) && balance == old(balance) && events == old(events)
    {
      hide SourceInvariant;
      ApplyLockKeeps(State(), LockCall(sender, value, ethDestination));
      if value == 0 {
        return false;
      }
      var currentNonce: int := nextNonce;
      if currentNonce + 1 == U256 {
        return false;
      }
      balance := balance + value;
      locks := locks[currentNonce := LockDetails(sender, value, ethDestination, currentNonce)];
      events := events + [LockDetails(sender, value, ethDestination, currentNonce)];
      nextNonce := nextNonce + 1;
      ok := true;
    }
  }
}
