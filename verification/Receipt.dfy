/** Lock events as EVM logs, and the relayer's scan for the first of them. */
module Receipt {
  import opened Words
  import opened Source
  import opened Text

  datatype Log = Log(address: Address, topics: seq<Digest>, data: Bytes)

  /** The event signature hash the scan compares with, in hex, cut into four. */
  const SIG_0: string := "b66d" + "adac" + "3190" + "736a"
  const SIG_1: string := "c970" + "c923" + "5fdd" + "04d5"
  const SIG_2: string := "95fc" + "d778" + "65ef" + "1f20"
  const SIG_3: string := "7f8c" + "d314" + "5165" + "a324"

  const LOCK_EVENT_SIG: string := SIG_0 + SIG_1 + SIG_2 + SIG_3

  const TOPIC_0: Bytes := [0xb6, 0x6d] + [0xad, 0xac] + [0x31, 0x90] + [0x73, 0x6a]
  const TOPIC_1: Bytes := [0xc9, 0x70] + [0xc9, 0x23] + [0x5f, 0xdd] + [0x04, 0xd5]
  const TOPIC_2: Bytes := [0x95, 0xfc] + [0xd7, 0x78] + [0x65, 0xef] + [0x1f, 0x20]
  const TOPIC_3: Bytes := [0x7f, 0x8c] + [0xd3, 0x14] + [0x51, 0x65] + [0xa3, 0x24]

  const LOCK_TOPIC: Digest := TOPIC_0 + TOPIC_1 + TOPIC_2 + TOPIC_3

  /** Standard ABI data of `Lock`: three 32-byte words; the sender is indexed. */
  function LockLog(bridge: Address, e: LockDetails): Log {
    Log(bridge, [LOCK_TOPIC, Zeros(12) + e.sender],
        ToBytes(e.amount, 32) + Zeros(12) + e.ethDestination + ToBytes(e.nonce, 32))
  }

  datatype Scan = Found(recipient: Address, amount: Uint256) | NotFound | Crash

  predicate IsLockFrom(log: Log, bridge: Address)
    requires |log.topics| > 0
  {
    HexEncode(log.topics[0]) == LOCK_EVENT_SIG && log.address == bridge
  }

  /** What is read from a matching log; slicing shorter data crashes. */
  function ReadLock(log: Log): Scan {
    if |log.data| < 64 then Crash
    else
      BigEndianBound(log.data[0..32]);
      Pow2Of256();
      Found(log.data[44..64], BigEndian(log.data[0..32]))
  }

  /** The scan: the first log without topics crashes it, the first match ends it. */
  function ScanLogs(logs: seq<Log>, bridge: Address): Scan {
    if |logs| == 0 then NotFound
    else if |logs[0].topics| == 0 then Crash
    else if IsLockFrom(logs[0], bridge) then ReadLock(logs[0])
    else ScanLogs(logs[1..], bridge)
  }

  /** Everything before position i has a topic and does not match. */
  ghost predicate PassedOver(logs: seq<Log>, bridge: Address, i: nat) {
    && i <= |logs|
    && forall k :: 0 <= k < i ==> |logs[k].topics| > 0 && !IsLockFrom(logs[k], bridge)
  }

  ghost predicate FirstLock(logs: seq<Log>, bridge: Address, i: nat) {
    i < |logs| && PassedOver(logs, bridge, i) && |logs[i].topics| > 0 && IsLockFrom(logs[i], bridge)
  }

  /** The scan's answer at the first log that stops it. */
  lemma {:induction false} ScanStopsAtFirst(logs: seq<Log>, bridge: Address, i: nat)
    requires PassedOver(logs, bridge, i)
    requires i < |logs| ==> |logs[i].topics| == 0 || IsLockFrom(logs[i], bridge)
    ensures ScanLogs(logs, bridge) ==
      if i == |logs| then NotFound else if |logs[i].topics| == 0 then Crash else ReadLock(logs[i])
  {
    if i > 0 {
      assert forall k :: 0 <= k < i - 1 ==> logs[1..][k] == logs[k + 1];
      ScanStopsAtFirst(logs[1..], bridge, i - 1);
    }
  }

  /** The scan loop of `FetchLockDetails`. */
  method FetchLockDetails(logs: seq<Log>, bridge: Address) returns (r: Scan)
    ensures r == ScanLogs(logs, bridge)
    ensures r == NotFound <==> PassedOver(logs, bridge, |logs|)
    ensures r.Found? ==> exists i: nat :: FirstLock(logs, bridge, i) && r == ReadLock(logs[i])
  {
    for i := 0 to |logs|
      invariant PassedOver(logs, bridge, i)
    {
      var vLog := logs[i];
      if |vLog.topics| == 0 {
        ScanStopsAtFirst(logs, bridge, i);
        return Crash;
      }
      if HexEncode(vLog.topics[0]) == LOCK_EVENT_SIG && vLog.address == bridge {
        ScanStopsAtFirst(logs, bridge, i);
        assert FirstLock(logs, bridge, i);
        return ReadLock(vLog);
      }
    }
    ScanStopsAtFirst(logs, bridge, |logs|);
    r := NotFound;
  }

  lemma HexOfPair(x: byte, y: byte, s: string)
    requires s == [HexChar(x / 16), HexChar(x % 16), HexChar(y / 16), HexChar(y % 16)]
    ensures HexEncode([x, y]) == s
  {
    assert [x, y][1..] == [y] && [y][1..] == [];
  }

  lemma HexOfFour(a: Bytes, b: Bytes, c: Bytes, d: Bytes)
    ensures HexEncode(a + b + c + d) == HexEncode(a) + HexEncode(b) + HexEncode(c) + HexEncode(d)
  {
    HexEncodeAppend(a, b);
    HexEncodeAppend(a + b, c);
    HexEncodeAppend(a + b + c, d);
  }

  lemma HexOfTopic0()
    ensures HexEncode(TOPIC_0) == SIG_0
  {
    hide HexEncode;
    HexOfPair(0xb6, 0x6d, "b66d");
    HexOfPair(0xad, 0xac, "adac");
    HexOfPair(0x31, 0x90, "3190");
    HexOfPair(0x73, 0x6a, "736a");
    HexOfFour([0xb6, 0x6d], [0xad, 0xac], [0x31, 0x90], [0x73, 0x6a]);
  }

  lemma HexOfTopic1()
    ensures HexEncode(TOPIC_1) == SIG_1
  {
    hide HexEncode;
    HexOfPair(0xc9, 0x70, "c970");
    HexOfPair(0xc9, 0x23, "c923");
    HexOfPair(0x5f, 0xdd, "5fdd");
    HexOfPair(0x04, 0xd5, "04d5");
    HexOfFour([0xc9, 0x70], [0xc9, 0x23], [0x5f, 0xdd], [0x04, 0xd5]);
  }

  lemma HexOfTopic2()
    ensures HexEncode(TOPIC_2) == SIG_2
  {
    hide HexEncode;
    HexOfPair(0x95, 0xfc, "95fc");
    HexOfPair(0xd7, 0x78, "d778");
    HexOfPair(0x65, 0xef, "65ef");
    HexOfPair(0x1f, 0x20, "1f20");
    HexOfFour([0x95, 0xfc], [0xd7, 0x78], [0x65, 0xef], [0x1f, 0x20]);
  }

  lemma HexOfTopic3()
    ensures HexEncode(TOPIC_3) == SIG_3
  {
    hide HexEncode;
    HexOfPair(0x7f, 0x8c, "7f8c");
    HexOfPair(0xd3, 0x14, "d314");
    HexOfPair(0x51, 0x65, "5165");
    HexOfPair(0xa3, 0x24, "a324");
    HexOfFour([0x7f, 0x8c], [0xd3, 0x14], [0x51, 0x65], [0xa3, 0x24]);
  }

  lemma LockTopicMatches()
    ensures HexEncode(LOCK_TOPIC) == LOCK_EVENT_SIG
  {
    hide HexEncode, TOPIC_0, TOPIC_1, TOPIC_2, TOPIC_3, SIG_0, SIG_1, SIG_2, SIG_3;
    HexOfTopic0();
    HexOfTopic1();
    HexOfTopic2();
    HexOfTopic3();
    HexOfFour(TOPIC_0, TOPIC_1, TOPIC_2, TOPIC_3);
  }

  lemma Pow2Of256()
    ensures Pow2(256) == U256
  {
    Pow2Of64();
    Pow2Sum(64, 64);
    Pow2Sum(128, 128);
  }

  lemma LockDataLayout(amount: Bytes, destination: Address, nonce: Bytes)
    requires |amount| == |nonce| == 32
    ensures var data := amount + Zeros(12) + destination + nonce;
      |data| == 96 && data[0..32] == amount && data[44..64] == destination
  {
  }

  lemma {:induction false} HexInjective(a: Bytes, b: Bytes)
    requires HexEncode(a) == HexEncode(b)
    ensures a == b
  {
    LowerHex(a);
    HexDecodeExact(HexEncode(a), a);
    HexDecodeExact(HexEncode(a), b);
  }

  /** A log matches exactly when its first topic is the 32 bytes of the signature and the bridge emitted it. */
  lemma IsLockFromExact(log: Log, bridge: Address)
    requires |log.topics| > 0
    ensures IsLockFrom(log, bridge) <==> log.topics[0] == LOCK_TOPIC && log.address == bridge
  {
    hide HexEncode, LOCK_EVENT_SIG, LOCK_TOPIC;
    LockTopicMatches();
    if HexEncode(log.topics[0]) == LOCK_EVENT_SIG {
      HexInjective(log.topics[0], LOCK_TOPIC);
    }
  }

  /** Data of an amount, a padded address and anything after them is read as these two; less data crashes. */
  lemma ReadLockExact(log: Log, amount: Uint256, padding: Bytes, recipient: Address, rest: Bytes)
    ensures |log.data| < 64 ==> ReadLock(log) == Crash
    ensures |padding| == 12 && log.data == ToBytes(amount, 32) + padding + recipient + rest ==>
      ReadLock(log) == Found(recipient, amount)
  {
    Pow2Of256();
    BigEndianOfBytes(amount, 32);
    if |padding| == 12 {
      var data := ToBytes(amount, 32) + padding + recipient + rest;
      assert data[0..32] == ToBytes(amount, 32) && data[44..64] == recipient;
    }
  }

  /** Everything the event carries can be read from its log. */
  lemma LockLogCarries(bridge: Address, e: LockDetails)
    ensures var log := LockLog(bridge, e);
      && log.address == bridge && |log.topics| == 2 && |log.data| == 96
      && log.topics[0] == LOCK_TOPIC && log.topics[1][..12] == seq(12, _ => 0) && log.topics[1][12..] == e.sender
      && BigEndian(log.data[0..32]) == e.amount
      && log.data[32..44] == seq(12, _ => 0) && log.data[44..64] == e.ethDestination
      && BigEndian(log.data[64..96]) == e.nonce
  {
    hide LOCK_TOPIC;
    Pow2Of256();
    BigEndianOfBytes(e.amount, 32);
    BigEndianOfBytes(e.nonce, 32);
    LockDataLayout(ToBytes(e.amount, 32), e.ethDestination, ToBytes(e.nonce, 32));
    assert Zeros(12) == seq(12, _ => 0);
    LockLogParts(e);
  }

  lemma LockLogParts(e: LockDetails)
    ensures var topic, data := Zeros(12) + e.sender,
        ToBytes(e.amount, 32) + Zeros(12) + e.ethDestination + ToBytes(e.nonce, 32);
      && topic[..12] == Zeros(12) && topic[12..] == e.sender
      && data[32..44] == Zeros(12) && data[64..96] == ToBytes(e.nonce, 32)
  {
  }

  // ----- the recipient is printed and parsed again on its way to `mint` -----

  /** The bytes decoded before the first character that is no hex digit. */
  function HexPrefix(s: string): Bytes {
    if |s| < 2 || HexDigit(s[0]).None? || HexDigit(s[1]).None? then []
    else [16 * HexDigit(s[0]).value + HexDigit(s[1]).value] + HexPrefix(s[2..])
  }

  /** The last twenty bytes, filled up with zeros on the left. */
  function LastTwenty(b: Bytes): Address {
    if |b| >= 20 then b[|b| - 20..] else Zeros(20 - |b|) + b
  }

  /** `common.HexToAddress`. */
  function HexToAddress(s: string): Address {
    var t := if HasPrefix(s, "0x") || HasPrefix(s, "0X") then s[2..] else s;
    LastTwenty(HexPrefix(if |t| % 2 == 1 then "0" + t else t))
  }

  lemma {:induction false} HexPrefixOfWhole(s: string)
    requires HexDecode(s).Some?
    ensures HexPrefix(s) == HexDecode(s).value && |s| == 2 * |HexPrefix(s)|
  {
    if |s| >= 2 {
      HexPrefixOfWhole(s[2..]);
    }
  }

  /** An address printed in any mix of letter cases, as a checksum may ask for, is read back. */
  lemma AddressSurvivesPrinting(a: Address, s: string)
    requires Lower(s) == HexEncode(a)
    ensures HexToAddress("0x" + s) == a
  {
    HexDecodeExact(s, a);
    HexPrefixOfWhole(s);
    assert ("0x" + s)[2..] == s;
  }

  /** Decoding the data of a Lock log gives back its recipient, also after printing, and its amount. */
  lemma LockRoundTrip(bridge: Address, e: LockDetails)
    ensures var log := LockLog(bridge, e);
      IsLockFrom(log, bridge) && ReadLock(log) == Found(e.ethDestination, e.amount)
    ensures forall s :: Lower(s) == HexEncode(e.ethDestination) ==> HexToAddress("0x" + s) == e.ethDestination
  {
    LockTopicMatches();
    Pow2Of256();
    BigEndianOfBytes(e.amount, 32);
    LockDataLayout(ToBytes(e.amount, 32), e.ethDestination, ToBytes(e.nonce, 32));
    forall s | Lower(s) == HexEncode(e.ethDestination)
      ensures HexToAddress("0x" + s) == e.ethDestination
    {
      AddressSurvivesPrinting(e.ethDestination, s);
    }
  }
}
