/** Reading the Tendermint RPC response: hashes and the EVM transaction hash. */
module Rpc {
  import opened Words
  import opened Text

  // ----- DecodeHash -----

  /** Hex first, then base64; either must give 32 bytes. */
  function DecodeHash(s: string): Option<Digest> {
    var t := TrimPrefix(s, "0x");
    match HexDecode(t)
    case Some(b) => if |b| == 32 then Some(b) else DecodeBase64Hash(t)
    case None => DecodeBase64Hash(t)
  }

  function DecodeBase64Hash(t: string): Option<Digest> {
    match Base64Decode(t)
    case Some(b) => if |b| == 32 then Some(b) else None
    case None => None
  }

  predicate IsHexOf(t: string, d: Digest) {
    HexDecode(t) == Some(d)
  }

  predicate IsBase64Of(t: string, d: Digest) {
    Base64Decode(t) == Some(d)
  }

  lemma {:induction false} HexStringsAreClean(t: string)
    requires HexDecode(t).Some?
    ensures Clean(t) && '=' !in t && |t| == 2 * |HexDecode(t).value|
    decreases |t|
  {
    if |t| >= 2 {
      HexStringsAreClean(t[2..]);
      assert t == [t[0], t[1]] + t[2..];
    }
  }

  /** No string is both the hex and the base64 of 32 bytes. */
  lemma NeverBoth(t: string, d: Digest, e: Digest)
    ensures !(IsHexOf(t, d) && IsBase64Of(t, e))
  {
    if IsHexOf(t, d) && IsBase64Of(t, e) {
      HexStringsAreClean(t);
      CleanUnchanged(t);
      DecodedLength(t);
    }
  }

  /** `DecodeHash` gives d exactly when the string, less a "0x", is the hex or the base64 of d. */
  lemma DecodeHashExact(s: string, d: Digest)
    ensures var t := TrimPrefix(s, "0x");
      DecodeHash(s) == Some(d) <==> IsHexOf(t, d) || IsBase64Of(t, d)
  {
    var t := TrimPrefix(s, "0x");
    if IsBase64Of(t, d) {
      match HexDecode(t) {
        case Some(b) =>
          if |b| == 32 {
            NeverBoth(t, b, d);
          }
        case None =>
      }
    }
  }

  /** Hex in any letter case, with or without "0x". */
  lemma DecodeHashOfHex(s: string, d: Digest)
    requires Lower(s) == HexEncode(d)
    ensures DecodeHash(s) == Some(d) && DecodeHash("0x" + s) == Some(d)
  {
    HexDecodeExact(s, d);
    HexStartsNot0x(s, d);
    assert ("0x" + s)[2..] == s;
  }

  /** The base64 of d begins with "0x" exactly for d = D3 1_ ... */
  lemma Base64StartsWith0x(d: Digest)
    ensures HasPrefix(Base64Encode(d), "0x") <==> d[0] == 0xD3 && d[1] / 16 == 1
  {
    var s := Base64Encode(d);
    assert s[0] == Base64Char(d[0] / 4) && s[1] == Base64Char(d[0] % 4 * 16 + d[1] / 16);
    assert Base64Value('0') == Some(52) && Base64Value('x') == Some(49);
    assert Base64Char(52) == '0' && Base64Char(49) == 'x';
    assert HasPrefix(s, "0x") <==> s[0] == '0' && s[1] == 'x';
  }

  lemma TrimmedOf0x(t: string)
    ensures TrimPrefix("0x" + t, "0x") == t
  {
    assert ("0x" + t)[2..] == t;
  }

  /** Cutting "0x" off a 44-character string leaves neither hex of 32 bytes nor whole base64 quanta. */
  lemma NothingLeftAfter0x(t: string)
    requires Clean(t) && |t| == 42
    ensures DecodeHash("0x" + t) == None
  {
    hide HexDecode, DecodeClean, Clean, WithoutNewlines;
    TrimmedOf0x(t);
    CleanUnchanged(t);
    if DecodeClean(t).Some? {
      DecodedLength(t);
    }
    if HexDecode(t).Some? {
      HexStringsAreClean(t);
    }
  }

  /** Base64 is read back exactly when it does not begin with "0x"; otherwise it is an error. */
  lemma DecodeHashOfBase64(d: Digest)
    ensures DecodeHash(Base64Encode(d)) == if d[0] == 0xD3 && d[1] / 16 == 1 then None else Some(d)
  {
    var s := Base64Encode(d);
    Base64StartsWith0x(d);
    if HasPrefix(s, "0x") {
      Base64EncodeClean(d);
      assert s == "0x" + s[2..];
      NothingLeftAfter0x(s[2..]);
    } else {
      Base64RoundTrip(d);
      DecodeHashExact(s, d);
    }
  }

  /** A node writes a hash in hex or in base64. */
  predicate Spells(s: string, d: Digest) {
    Lower(s) == HexEncode(d) || s == Base64Encode(d)
  }

  predicate Readable(s: string) {
    !HasPrefix(s, "0x")
  }

  /** Either spelling is read back exactly when it does not begin with "0x"; only base64 of D3 1_ ... does. */
  lemma SpellingDecodes(s: string, d: Digest)
    requires Spells(s, d)
    ensures DecodeHash(s) == if Readable(s) then Some(d) else None
    ensures !Readable(s) ==> s == Base64Encode(d) && d[0] == 0xD3 && d[1] / 16 == 1
  {
    if s == Base64Encode(d) {
      DecodeHashOfBase64(d);
      Base64StartsWith0x(d);
    } else {
      DecodeHashOfHex(s, d);
      HexStartsNot0x(s, d);
    }
  }

  lemma HexStartsNot0x(s: string, d: Digest)
    requires Lower(s) == HexEncode(d)
    ensures Readable(s)
  {
    assert Lower(s)[1] == HexChar(d[0] % 16);
  }

  // ----- GetEvmHash -----

  predicate Printable(c: char) {
    32 <= c as int <= 126
  }

  function CharByte(c: char): byte
    requires Printable(c)
  {
    c as int
  }

  function BytesOf(s: string): (b: Bytes)
    requires forall i :: 0 <= i < |s| ==> Printable(s[i])
    ensures |b| == |s|
  {
    seq(|s|, i requires 0 <= i < |s| => CharByte(s[i]))
  }

  function StringOf(b: Bytes): (s: string)
    ensures |s| == |b|
  {
    seq(|b|, i requires 0 <= i < |b| => b[i] as char)
  }

  /** Base64-decodes when that works and gives printable ASCII. */
  function DecodeStringIfSmall(s: string): string {
    if |s| == 0 || |s| % 4 != 0 then s
    else
      match Base64Decode(s)
      case None => s
      case Some(b) => if forall i :: 0 <= i < |b| ==> 32 <= b[i] <= 126 then StringOf(b) else s
  }

  predicate PlainString(s: string) {
    && (forall i :: 0 <= i < |s| ==> Printable(s[i]))
    && DecodeStringIfSmall(s) == s
  }

  lemma WholeQuanta(b: Bytes)
    ensures |Base64Encode(b)| % 4 == 0
  {
    hide Base64Encode;
    FourTimes((|b| + 2) / 3);
  }

  lemma FourTimes(q: nat)
    ensures (4 * q) % 4 == 0
  {
  }

  lemma DecodesToPrintable(t: string, b: Bytes)
    requires Base64Decode(t) == Some(b) && |t| % 4 == 0
    requires forall i :: 0 <= i < |b| ==> 32 <= b[i] <= 126
    ensures DecodeStringIfSmall(t) == StringOf(b)
  {
    if |t| == 0 {
      assert t == "" && WithoutNewlines(t) == "";
    }
  }

  lemma DecodeStringOfBase64(s: string)
    requires forall i :: 0 <= i < |s| ==> Printable(s[i])
    ensures DecodeStringIfSmall(Base64Encode(BytesOf(s))) == s
  {
    var b := BytesOf(s);
    Base64RoundTrip(b);
    assert StringOf(b) == s;
    forall i | 0 <= i < |b|
      ensures 32 <= b[i] <= 126
    {
      assert b[i] == CharByte(s[i]);
    }
    WholeQuanta(b);
    DecodesToPrintable(Base64Encode(b), b);
  }

  datatype Attribute = Attribute(key: string, value: string)
  datatype Event = Event(kind: string, attributes: seq<Attribute>)

  /** The parts of the response the relayer reads. */
  datatype TxResponse = TxResponse(
    hash: string,
    txHash: string,
    resultHash: string,
    events: seq<Event>,
    resultEvents: seq<Event>,
    txResultEvents: seq<Event>,
    rootHash: string,
    leafHash: string,
    aunts: seq<string>,
    index: string)

  predicate IsEvmEvent(e: Event) {
    var eType := Lower(DecodeStringIfSmall(e.kind));
    eType == "ethereum_tx" || eType == "ethereum-tx" || eType == "evm"
  }

  predicate IsHashAttribute(a: Attribute) {
    var key := Lower(DecodeStringIfSmall(a.key));
    && (key == "ethereumtxhash" || key == "txhash" || key == "eth_tx_hash")
    && |DecodeStringIfSmall(a.value)| >= 64
  }

  function With0x(val: string): string {
    if HasPrefix(val, "0x") then val else "0x" + val
  }

  function AllEvents(r: TxResponse): seq<Event> {
    r.events + r.resultEvents + r.txResultEvents
  }

  /** Attribute j of event i answers, and nothing before it does. */
  ghost predicate FirstAnswer(events: seq<Event>, i: nat, j: nat) {
    && i < |events| && j < |events[i].attributes|
    && IsEvmEvent(events[i]) && IsHashAttribute(events[i].attributes[j])
    && NoAnswer(events[..i]) && NoneOf(events[i].attributes[..j])
  }

  ghost predicate NoneOf(attributes: seq<Attribute>) {
    forall j :: 0 <= j < |attributes| ==> !IsHashAttribute(attributes[j])
  }

  ghost predicate NoAnswer(events: seq<Event>) {
    forall i :: 0 <= i < |events| ==> IsEvmEvent(events[i]) ==> NoneOf(events[i].attributes)
  }

  function Answer(a: Attribute): string {
    With0x(DecodeStringIfSmall(a.value))
  }

  // The same answer as a function, for the lemmas and the relayer model.

  function FirstHash(attributes: seq<Attribute>): string {
    if |attributes| == 0 then ""
    else if IsHashAttribute(attributes[0]) then Answer(attributes[0])
    else FirstHash(attributes[1..])
  }

  function FirstEvmHash(events: seq<Event>): string {
    if |events| == 0 then ""
    else if Answers(events[0]) then FirstHash(events[0].attributes)
    else FirstEvmHash(events[1..])
  }

  function EvmHash(r: TxResponse): string {
    FirstEvmHash(AllEvents(r))
  }

  lemma {:induction false} FirstHashIs(attributes: seq<Attribute>, j: nat)
    requires j <= |attributes| && NoneOf(attributes[..j])
    requires j < |attributes| ==> IsHashAttribute(attributes[j])
    ensures FirstHash(attributes) == if j < |attributes| then Answer(attributes[j]) else ""
  {
    if j > 0 {
      assert attributes[..j][0] == attributes[0];
      assert attributes[1..][..j - 1] == attributes[..j][1..];
      FirstHashIs(attributes[1..], j - 1);
    }
  }

  predicate Answers(e: Event) {
    IsEvmEvent(e) && FirstHash(e.attributes) != ""
  }

  lemma NoAnswerFrom(e: Event)
    requires IsEvmEvent(e) ==> NoneOf(e.attributes)
    ensures !Answers(e)
  {
    if IsEvmEvent(e) {
      var all := e.attributes;
      assert all[..|all|] == all;
      FirstHashIs(all, |all|);
    }
  }

  lemma {:induction false} FirstEvmHashSkips(events: seq<Event>, i: nat)
    requires i <= |events| && NoAnswer(events[..i])
    ensures FirstEvmHash(events) == FirstEvmHash(events[i..])
  {
    hide IsEvmEvent, IsHashAttribute, Answers;
    if i > 0 {
      assert events[..i][0] == events[0];
      NoAnswerFrom(events[0]);
      assert events[1..][..i - 1] == events[..i][1..];
      FirstEvmHashSkips(events[1..], i - 1);
      assert events[1..][i - 1..] == events[i..];
    } else {
      assert events[0..] == events;
    }
  }

  lemma FirstEvmHashFound(events: seq<Event>, i: nat, j: nat)
    requires FirstAnswer(events, i, j)
    ensures FirstEvmHash(events) == Answer(events[i].attributes[j]) != ""
  {
    FirstEvmHashSkips(events, i);
    FirstHashIs(events[i].attributes, j);
    assert Answers(events[i..][0]);
  }

  lemma NoAnswerExtends(events: seq<Event>, i: nat)
    requires i < |events| && NoAnswer(events[..i])
    requires IsEvmEvent(events[i]) ==> NoneOf(events[i].attributes)
    ensures NoAnswer(events[..i + 1])
  {
    var longer := events[..i + 1];
    forall k | 0 <= k < |longer| && IsEvmEvent(longer[k])
      ensures NoneOf(longer[k].attributes)
    {
      if k < i {
        assert events[..i][k] == longer[k];
      }
    }
  }

  /** The inner loop: where the first hash attribute stands, or the number of attributes. */
  method FirstHashAttribute(attributes: seq<Attribute>) returns (j: nat)
    ensures j <= |attributes| && NoneOf(attributes[..j])
    ensures j < |attributes| ==> IsHashAttribute(attributes[j])
  {
    hide IsHashAttribute;
    j := 0;
    while j < |attributes|
      invariant j <= |attributes| && NoneOf(attributes[..j])
    {
      if IsHashAttribute(attributes[j]) {
        return;
      }
      j := j + 1;
    }
  }

  /** `GetEvmHash`: the first answering attribute in the order of concatenation, or "". */
  method GetEvmHash(r: TxResponse) returns (hash: string)
    ensures hash == EvmHash(r)
    ensures hash == "" ==> NoAnswer(AllEvents(r))
    ensures hash != "" ==> exists i: nat, j: nat ::
      FirstAnswer(AllEvents(r), i, j) && hash == Answer(AllEvents(r)[i].attributes[j])
  {
    hide IsEvmEvent, IsHashAttribute, Answer;
    var allEvents := [];
    allEvents := allEvents + r.events;
    allEvents := allEvents + r.resultEvents;
    allEvents := allEvents + r.txResultEvents;
    assert allEvents == AllEvents(r);
    for i := 0 to |allEvents|
      invariant NoAnswer(allEvents[..i])
    {
      var event := allEvents[i];
      if IsEvmEvent(event) {
        var j := FirstHashAttribute(event.attributes);
        if j < |event.attributes| {
          FirstEvmHashFound(allEvents, i, j);
          return Answer(event.attributes[j]);
        }
        assert event.attributes[..j] == event.attributes;
      }
      NoAnswerExtends(allEvents, i);
    }
    assert allEvents[..|allEvents|] == allEvents;
    FirstEvmHashSkips(allEvents, |allEvents|);
    hash := "";
  }

  // ----- the answer in terms of the strings -----

  ghost predicate AllPrintable(b: Bytes) {
    forall i :: 0 <= i < |b| ==> 32 <= b[i] <= 126
  }

  /** The string is base64 of printable ASCII, in whole quanta. */
  ghost predicate Wraps(t: string, b: Bytes) {
    t != "" && |t| % 4 == 0 && Base64Decode(t) == Some(b) && AllPrintable(b)
  }

  /** A string that wraps printable text is read as that text, and any other is left as it is. */
  lemma DecodeStringExact(t: string, s: string)
    ensures DecodeStringIfSmall(t) == s <==>
      (exists b: Bytes :: Wraps(t, b) && s == StringOf(b)) || (s == t && forall b: Bytes :: !Wraps(t, b))
  {
    if Base64Decode(t).Some? && AllPrintable(Base64Decode(t).value) && t != "" && |t| % 4 == 0 {
      assert Wraps(t, Base64Decode(t).value);
    }
  }

  /** The string is the name in any letter case, plain or in base64. */
  ghost predicate Called(t: string, name: string) {
    SameUpToCase(t, name) || exists b: Bytes :: Wraps(t, b) && SameUpToCase(StringOf(b), name)
  }

  lemma CalledExact(t: string, name: string)
    requires |name| % 4 != 0
    ensures Lower(DecodeStringIfSmall(t)) == Lower(name) <==> Called(t, name)
  {
    hide Base64Decode, DecodeStringIfSmall, Lower, StringOf;
    var s := DecodeStringIfSmall(t);
    DecodeStringExact(t, s);
    LowerExact(s, name);
    forall b: Bytes | Wraps(t, b)
      ensures s == StringOf(b)
    {
      DecodeStringExact(t, StringOf(b));
    }
  }

  /** An event counts exactly when its kind is one of three names, in any letter case, plain or in base64. */
  lemma EvmEventExact(e: Event)
    ensures IsEvmEvent(e) <==> Called(e.kind, "ethereum_tx") || Called(e.kind, "ethereum-tx") || Called(e.kind, "evm")
  {
    hide Called, DecodeStringIfSmall, Lower;
    NothingToLower("ethereum_tx");
    NothingToLower("ethereum-tx");
    NothingToLower("evm");
    CalledExact(e.kind, "ethereum_tx");
    CalledExact(e.kind, "ethereum-tx");
    CalledExact(e.kind, "evm");
  }

  /** So does an attribute with one of three keys and a value of 64 characters or more. */
  lemma HashAttributeExact(a: Attribute)
    ensures IsHashAttribute(a) <==>
      (Called(a.key, "ethereumtxhash") || Called(a.key, "txhash") || Called(a.key, "eth_tx_hash"))
      && |DecodeStringIfSmall(a.value)| > 63
  {
    hide Called, DecodeStringIfSmall, Lower;
    NothingToLower("ethereumtxhash");
    NothingToLower("txhash");
    NothingToLower("eth_tx_hash");
    CalledExact(a.key, "ethereumtxhash");
    CalledExact(a.key, "txhash");
    CalledExact(a.key, "eth_tx_hash");
  }

  /** The text a value stands for: what it wraps, or itself. */
  ghost predicate StandsFor(t: string, s: string) {
    (exists b: Bytes :: Wraps(t, b) && s == StringOf(b)) || (s == t && forall b: Bytes :: !Wraps(t, b))
  }

  /**
   * The answer for a response with one event of one attribute, wherever the event stands: the text
   * of the value, with 0x in front if it is not there, when the names are right and the text is long
   * enough; else nothing.
   */
  lemma OneEventAnswer(r: TxResponse, kind: string, key: string, value: string, s: string)
    requires r.events + r.resultEvents + r.txResultEvents == [Event(kind, [Attribute(key, value)])]
    requires StandsFor(value, s)
    ensures EvmHash(r) ==
      if (Called(kind, "ethereum_tx") || Called(kind, "ethereum-tx") || Called(kind, "evm"))
         && (Called(key, "ethereumtxhash") || Called(key, "txhash") || Called(key, "eth_tx_hash"))
         && |s| >= 64
      then if s[0] == '0' && s[1] == 'x' then s else ['0', 'x'] + s
      else ""
  {
    hide Called, StandsFor, DecodeStringIfSmall, IsEvmEvent, IsHashAttribute;
    var a := Attribute(key, value);
    var e := Event(kind, [a]);
    EvmEventExact(e);
    HashAttributeExact(a);
    ValueIs(value, s);
    OneEvent(r, e, a);
    if |s| >= 64 {
      With0xExact(s);
    }
  }

  /** The usual event: kind ethereum_tx, key txhash and a 0x-prefixed value of 66 characters, which is the answer. */
  lemma UsualEventAnswers(r: TxResponse, value: string)
    requires r.events + r.resultEvents + r.txResultEvents == [Event("ethereum_tx", [Attribute("txhash", value)])]
    requires |value| == 66 && value[0] == '0' && value[1] == 'x'
    ensures EvmHash(r) == value
  {
    hide EvmHash;
    assert forall b: Bytes :: !Wraps(value, b);
    assert SameUpToCase("ethereum_tx", "ethereum_tx") && SameUpToCase("txhash", "txhash");
    OneEventAnswer(r, "ethereum_tx", "txhash", value, value);
  }

  lemma ValueIs(value: string, s: string)
    requires StandsFor(value, s)
    ensures DecodeStringIfSmall(value) == s
  {
    DecodeStringExact(value, s);
  }

  lemma With0xExact(s: string)
    requires |s| >= 2
    ensures With0x(s) == if s[0] == '0' && s[1] == 'x' then s else ['0', 'x'] + s
  {
    assert HasPrefix(s, "0x") <==> s[0] == '0' && s[1] == 'x';
  }

  lemma OneEvent(r: TxResponse, e: Event, a: Attribute)
    requires AllEvents(r) == [e] && e.attributes == [a]
    ensures EvmHash(r) == if IsEvmEvent(e) && IsHashAttribute(a) then With0x(DecodeStringIfSmall(a.value)) else ""
  {
    hide IsEvmEvent, IsHashAttribute, With0x, DecodeStringIfSmall;
    assert [e][1..] == [] && [a][1..] == [];
    if IsEvmEvent(e) && IsHashAttribute(a) {
      assert [e][..0] == [] && [a][..0] == [];
      assert FirstAnswer([e], 0, 0);
      FirstEvmHashFound([e], 0, 0);
      assert [e][0].attributes[0] == a;
    } else {
      assert IsEvmEvent(e) ==> NoneOf(e.attributes);
      NoAnswerFrom(e);
      assert FirstEvmHash([e]) == FirstEvmHash([e][1..]) == "";
    }
  }

  /** Top-level events are asked first, then those of the result, then those of its execution. */
  lemma EventsByPlace(r: TxResponse)
    ensures EvmHash(r) ==
      if FirstEvmHash(r.events) != "" then FirstEvmHash(r.events)
      else if FirstEvmHash(r.resultEvents) != "" then FirstEvmHash(r.resultEvents)
      else FirstEvmHash(r.txResultEvents)
  {
    FirstEvmHashOfBoth(r.events + r.resultEvents, r.txResultEvents);
    FirstEvmHashOfBoth(r.events, r.resultEvents);
  }

  lemma {:induction false} FirstEvmHashOfBoth(a: seq<Event>, b: seq<Event>)
    ensures FirstEvmHash(a + b) == if FirstEvmHash(a) != "" then FirstEvmHash(a) else FirstEvmHash(b)
    decreases |a|
  {
    hide Answers, FirstHash;
    if |a| == 0 {
      assert a + b == b;
    } else {
      FirstEvmHashOfBoth(a[1..], b);
      assert (a + b)[1..] == a[1..] + b;
      if Answers(a[0]) {
        AnswerIsNotEmpty(a[0]);
      }
    }
  }

  lemma AnswerIsNotEmpty(e: Event)
    requires Answers(e)
    ensures FirstHash(e.attributes) != ""
  {
  }

  // ----- independence of the encoding -----

  ghost predicate PlainAttributes(a: seq<Attribute>) {
    forall i :: 0 <= i < |a| ==> PlainString(a[i].key) && PlainString(a[i].value)
  }

  ghost predicate PlainEvents(e: seq<Event>) {
    forall i :: 0 <= i < |e| ==> PlainString(e[i].kind) && PlainAttributes(e[i].attributes)
  }

  function Encode(s: string): string
    requires PlainString(s)
  {
    Base64Encode(BytesOf(s))
  }

  function EncodeAttributes(a: seq<Attribute>): (r: seq<Attribute>)
    requires PlainAttributes(a)
  {
    if |a| == 0 then []
    else [Attribute(Encode(a[0].key), Encode(a[0].value))] + EncodeAttributes(a[1..])
  }

  function EncodeEvents(e: seq<Event>): (r: seq<Event>)
    requires PlainEvents(e)
    ensures |r| == |e|
  {
    if |e| == 0 then []
    else [Event(Encode(e[0].kind), EncodeAttributes(e[0].attributes))] + EncodeEvents(e[1..])
  }

  lemma {:induction false} EncodedAttributesAnswerAlike(a: seq<Attribute>)
    requires PlainAttributes(a)
    ensures FirstHash(EncodeAttributes(a)) == FirstHash(a)
  {
    if |a| > 0 {
      DecodeStringOfBase64(a[0].key);
      DecodeStringOfBase64(a[0].value);
      EncodedAttributesAnswerAlike(a[1..]);
      assert EncodeAttributes(a)[1..] == EncodeAttributes(a[1..]);
    }
  }

  lemma {:induction false} EncodedEventsAnswerAlike(e: seq<Event>)
    requires PlainEvents(e)
    ensures FirstEvmHash(EncodeEvents(e)) == FirstEvmHash(e)
  {
    if |e| > 0 {
      DecodeStringOfBase64(e[0].kind);
      EncodedAttributesAnswerAlike(e[0].attributes);
      EncodedEventsAnswerAlike(e[1..]);
      assert EncodeEvents(e)[1..] == EncodeEvents(e[1..]);
    }
  }

  function EncodeResponse(r: TxResponse): TxResponse
    requires PlainEvents(r.events) && PlainEvents(r.resultEvents) && PlainEvents(r.txResultEvents)
  {
    r.(events := EncodeEvents(r.events),
       resultEvents := EncodeEvents(r.resultEvents),
       txResultEvents := EncodeEvents(r.txResultEvents))
  }

  lemma EncodeFirstEvent(first: Event, rest: seq<Event>)
    requires PlainEvents([first]) && PlainEvents(rest)
    ensures PlainEvents([first] + rest)
    ensures EncodeEvents([first] + rest) == EncodeEvents([first]) + EncodeEvents(rest)
  {
    hide PlainString, EncodeAttributes, Encode;
    assert ([first] + rest)[1..] == rest && [first][1..] == [];
  }

  lemma FirstAndRest<T>(a: seq<T>, b: seq<T>)
    requires |a| > 0
    ensures a == [a[0]] + a[1..] && a + b == [a[0]] + (a[1..] + b)
  {
  }

  lemma Associates<T>(a: seq<T>, b: seq<T>, c: seq<T>)
    ensures a + (b + c) == a + b + c
  {
  }

  lemma {:induction false} EncodeEventsAppend(a: seq<Event>, b: seq<Event>)
    requires PlainEvents(a) && PlainEvents(b)
    ensures PlainEvents(a + b) && EncodeEvents(a + b) == EncodeEvents(a) + EncodeEvents(b)
    decreases |a|
  {
    if |a| == 0 {
      assert a + b == b;
    } else {
      assert PlainEvents([a[0]]) && PlainEvents(a[1..]);
      hide PlainEvents, EncodeEvents;
      EncodeEventsAppend(a[1..], b);
      EncodeFirstEvent(a[0], a[1..]);
      EncodeFirstEvent(a[0], a[1..] + b);
      FirstAndRest(a, b);
      Associates(EncodeEvents([a[0]]), EncodeEvents(a[1..]), EncodeEvents(b));
    }
  }

  /** Base64-encoding every type, key and value of a plain response does not change the answer. */
  lemma EvmHashIgnoresEncoding(r: TxResponse)
    requires PlainEvents(r.events) && PlainEvents(r.resultEvents) && PlainEvents(r.txResultEvents)
    ensures EvmHash(EncodeResponse(r)) == EvmHash(r)
  {
    EncodeEventsAppend(r.events, r.resultEvents);
    EncodeEventsAppend(r.events + r.resultEvents, r.txResultEvents);
    EncodedEventsAnswerAlike(AllEvents(r));
  }
}
