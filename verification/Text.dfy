/** Hexadecimal, base64 and decimal spellings. Go strings are strings of one-byte characters. */
module Text {
  import opened Words

  /** The letters A to Z in lower case, every other character as it is. */
  function LowerChar(c: char): char {
    if 'A' <= c <= 'Z' then (c as int + 32) as char else c
  }

  function Lower(s: string): (r: string)
    ensures |r| == |s|
  {
    if |s| == 0 then "" else [LowerChar(s[0])] + Lower(s[1..])
  }

  lemma {:induction false} NothingToLower(s: string)
    requires forall i :: 0 <= i < |s| ==> !('A' <= s[i] <= 'Z')
    ensures Lower(s) == s
  {
    if |s| > 0 {
      NothingToLower(s[1..]);
    }
  }

  /** The same character, or the same letter of A to Z in the two cases. */
  predicate SameLetter(c: char, d: char) {
    || c == d
    || ('A' <= c <= 'Z' && 'a' <= d <= 'z' && c as int - 'A' as int == d as int - 'a' as int)
    || ('a' <= c <= 'z' && 'A' <= d <= 'Z' && c as int - 'a' as int == d as int - 'A' as int)
  }

  predicate SameUpToCase(s: string, t: string) {
    |s| == |t| && forall i :: 0 <= i < |s| ==> SameLetter(s[i], t[i])
  }

  /** Lower-casing makes two strings equal exactly when they differ in the case of letters at most. */
  lemma {:induction false} LowerExact(s: string, t: string)
    ensures Lower(s) == Lower(t) <==> SameUpToCase(s, t)
    decreases |s|
  {
    if |s| == |t| && |s| > 0 {
      LowerExact(s[1..], t[1..]);
      LowerHeads(s, t);
      SameHeads(s, t);
    }
  }

  lemma LowerHeads(s: string, t: string)
    requires |s| == |t| > 0
    ensures Lower(s) == Lower(t) <==> SameLetter(s[0], t[0]) && Lower(s[1..]) == Lower(t[1..])
  {
    hide LowerChar;
    assert LowerChar(s[0]) == LowerChar(t[0]) <==> SameLetter(s[0], t[0]) by {
      LowerCharExact(s[0], t[0]);
    }
    assert Lower(s)[1..] == Lower(s[1..]) && Lower(t)[1..] == Lower(t[1..]);
    assert Lower(s)[0] == LowerChar(s[0]) && Lower(t)[0] == LowerChar(t[0]);
    if LowerChar(s[0]) == LowerChar(t[0]) && Lower(s[1..]) == Lower(t[1..]) {
      assert Lower(s) == Lower(t);
    }
  }

  lemma LowerCharExact(c: char, d: char)
    ensures LowerChar(c) == LowerChar(d) <==> SameLetter(c, d)
  {
  }

  lemma SameHeads(s: string, t: string)
    requires |s| == |t| > 0
    ensures SameUpToCase(s, t) <==> SameLetter(s[0], t[0]) && SameUpToCase(s[1..], t[1..])
  {
    if SameLetter(s[0], t[0]) && SameUpToCase(s[1..], t[1..]) {
      forall i | 0 <= i < |s|
        ensures SameLetter(s[i], t[i])
      {
        assert i > 0 ==> SameLetter(s[1..][i - 1], t[1..][i - 1]);
      }
    }
    if SameUpToCase(s, t) {
      forall i | 0 <= i < |s| - 1
        ensures SameLetter(s[1..][i], t[1..][i])
      {
        assert SameLetter(s[i + 1], t[i + 1]);
      }
    }
  }

  predicate HasPrefix(s: string, prefix: string) {
    prefix <= s
  }

  function TrimPrefix(s: string, prefix: string): string {
    if HasPrefix(s, prefix) then s[|prefix|..] else s
  }

  /** One prefix is cut off if it is there, and nothing otherwise. */
  lemma TrimPrefixExact(s: string, prefix: string)
    ensures TrimPrefix(prefix + s, prefix) == s
    ensures (forall t: string :: s != prefix + t) ==> TrimPrefix(s, prefix) == s
  {
    if HasPrefix(s, prefix) {
      assert s == prefix + s[|prefix|..];
    }
  }

  // ----- hexadecimal -----

  function HexDigit(c: char): Option<nat> {
    if '0' <= c <= '9' then Some(c as int - '0' as int)
    else if 'a' <= c <= 'f' then Some(c as int - 'a' as int + 10)
    else if 'A' <= c <= 'F' then Some(c as int - 'A' as int + 10)
    else None
  }

  function HexChar(v: nat): char
    requires v < 16
  {
    if v < 10 then ('0' as int + v) as char else ('a' as int + v - 10) as char
  }

  /** `hex.DecodeString`. */
  function HexDecode(s: string): Option<Bytes> {
    if |s| == 0 then Some([])
    else if |s| == 1 then None
    else
      match (HexDigit(s[0]), HexDigit(s[1]), HexDecode(s[2..]))
      case (Some(hi), Some(lo), Some(rest)) => HexByte(s[0], s[1]); Some([16 * hi + lo] + rest)
      case _ => None
  }

  function HexEncode(b: Bytes): (s: string)
    ensures |s| == 2 * |b|
  {
    if |b| == 0 then "" else [HexChar(b[0] / 16), HexChar(b[0] % 16)] + HexEncode(b[1..])
  }

  lemma {:induction false} HexEncodeAppend(a: Bytes, b: Bytes)
    ensures HexEncode(a + b) == HexEncode(a) + HexEncode(b)
  {
    if |a| == 0 {
      assert a + b == b;
    } else {
      assert (a + b)[1..] == a[1..] + b;
      HexEncodeAppend(a[1..], b);
    }
  }

  lemma HexByte(c: char, d: char)
    ensures HexDigit(c).Some? ==> HexDigit(c).value < 16
    ensures HexDigit(d).Some? ==> HexDigit(d).value < 16
  {
  }

  lemma HexDigitSpelling(c: char, v: nat)
    requires v < 16
    ensures HexDigit(c) == Some(v) <==> LowerChar(c) == HexChar(v)
  {
  }

  lemma HexDecodeStep(s: string, b: Bytes)
    requires |s| >= 2 && |b| >= 1
    ensures HexDecode(s) == Some(b) <==>
      HexDigit(s[0]) == Some(b[0] / 16) && HexDigit(s[1]) == Some(b[0] % 16) && HexDecode(s[2..]) == Some(b[1..])
  {
    hide HexDigit;
    HexByte(s[0], s[1]);
    assert [b[0]] + b[1..] == b;
    if HexDecode(s) == Some(b) {
      assert HexDecode(s[2..]).value == b[1..];
    }
  }

  lemma LowerOfOne(s: string)
    requires |s| >= 1
    ensures Lower(s) == [LowerChar(s[0])] + Lower(s[1..])
  {
    hide LowerChar;
  }

  lemma LowerOfTwo(s: string)
    requires |s| >= 2
    ensures Lower(s) == [LowerChar(s[0]), LowerChar(s[1])] + Lower(s[2..])
  {
    hide LowerChar, Lower;
    LowerOfOne(s);
    LowerOfOne(s[1..]);
    assert s[1..][1..] == s[2..];
    PairInFront(LowerChar(s[0]), LowerChar(s[1]), Lower(s[2..]));
  }

  lemma PairInFront(a: char, b: char, r: string)
    ensures [a] + ([b] + r) == [a, b] + r
  {
  }

  lemma HexSpellingStep(s: string, b: Bytes)
    requires |s| >= 2 && |b| >= 1
    ensures Lower(s) == HexEncode(b) <==>
      && LowerChar(s[0]) == HexChar(b[0] / 16) && LowerChar(s[1]) == HexChar(b[0] % 16)
      && Lower(s[2..]) == HexEncode(b[1..])
  {
    hide LowerChar, HexChar, Lower;
    LowerOfTwo(s);
    SameTwoAndRest(LowerChar(s[0]), LowerChar(s[1]), Lower(s[2..]),
                   HexChar(b[0] / 16), HexChar(b[0] % 16), HexEncode(b[1..]));
  }

  lemma {:induction false} LowerHex(b: Bytes)
    ensures Lower(HexEncode(b)) == HexEncode(b)
  {
    if |b| > 0 {
      LowerHex(b[1..]);
      HexSpellingStep(HexEncode(b), b);
      assert HexEncode(b)[2..] == HexEncode(b[1..]);
    }
  }

  lemma SameTwoAndRest(a: char, b: char, r: string, c: char, d: char, t: string)
    ensures [a, b] + r == [c, d] + t <==> a == c && b == d && r == t
  {
    var x, y := [a, b] + r, [c, d] + t;
    if x == y {
      assert x[0] == y[0] && x[1] == y[1];
      assert r == x[2..] == y[2..] == t;
    }
  }

  /** A string decodes to b exactly when it is the hex of b in some mix of letter cases. */
  lemma {:induction false} HexDecodeExact(s: string, b: Bytes)
    ensures HexDecode(s) == Some(b) <==> Lower(s) == HexEncode(b)
    decreases |s|
  {
    if |s| >= 2 && |b| >= 1 {
      hide HexDecode, HexEncode, Lower, HexDigit, LowerChar, HexChar;
      HexDecodeExact(s[2..], b[1..]);
      HexDecodeStep(s, b);
      HexSpellingStep(s, b);
      HexDigitSpelling(s[0], b[0] / 16);
      HexDigitSpelling(s[1], b[0] % 16);
    }
  }

  // ----- base64, section 4 of RFC 4648 -----

  type Sextet = v: int | 0 <= v < 64

  function Base64Value(c: char): Option<Sextet> {
    if 'A' <= c <= 'Z' then Some(c as int - 'A' as int)
    else if 'a' <= c <= 'z' then Some(c as int - 'a' as int + 26)
    else if '0' <= c <= '9' then Some(c as int - '0' as int + 52)
    else if c == '+' then Some(62)
    else if c == '/' then Some(63)
    else None
  }

  function Base64Char(v: Sextet): (c: char)
    ensures Base64Value(c) == Some(v)
  {
    if v < 26 then ('A' as int + v) as char
    else if v < 52 then ('a' as int + v - 26) as char
    else if v < 62 then ('0' as int + v - 52) as char
    else if v == 62 then '+'
    else '/'
  }

  lemma Base64ValueBound(c: char)
    ensures Base64Value(c).Some? ==> Base64Char(Base64Value(c).value) == c
  {
  }

  /** Three bytes as four characters of six bits. */
  function Quantum(x: byte, y: byte, z: byte): (q: string)
    ensures |q| == 4
  {
    [Base64Char(x / 4), Base64Char(x % 4 * 16 + y / 16), Base64Char(y % 16 * 4 + z / 64), Base64Char(z % 64)]
  }

  function Base64Encode(b: Bytes): (s: string)
    ensures |s| == 4 * ((|b| + 2) / 3)
  {
    if |b| == 0 then ""
    else if |b| == 1 then [Base64Char(b[0] / 4), Base64Char(b[0] % 4 * 16), '=', '=']
    else if |b| == 2 then
      [Base64Char(b[0] / 4), Base64Char(b[0] % 4 * 16 + b[1] / 16), Base64Char(b[1] % 16 * 4), '=']
    else Quantum(b[0], b[1], b[2]) + Base64Encode(b[3..])
  }

  function WithoutNewlines(s: string): string {
    if |s| == 0 then ""
    else (if s[0] == '\n' || s[0] == '\r' then "" else [s[0]]) + WithoutNewlines(s[1..])
  }

  function Byte0(v: Sextet, w: Sextet): byte {
    v * 4 + w / 16
  }

  function Byte1(w: Sextet, x: Sextet): byte {
    w % 16 * 16 + x / 4
  }

  function Byte2(x: Sextet, y: Sextet): byte {
    x % 4 * 64 + y
  }

  /** The bytes of one quantum: three, or fewer when it ends in padding; bits left over are not checked. */
  function DecodeQuantum(a: char, b: char, c: char, d: char, last: bool): Option<Bytes> {
    match (Base64Value(a), Base64Value(b), Base64Value(c), Base64Value(d))
    case (Some(v), Some(w), Some(x), Some(y)) => Some([Byte0(v, w), Byte1(w, x), Byte2(x, y)])
    case (Some(v), Some(w), Some(x), None) =>
      if last && d == '=' then Some([Byte0(v, w), Byte1(w, x)]) else None
    case (Some(v), Some(w), None, None) =>
      if last && c == '=' && d == '=' then Some([Byte0(v, w)]) else None
    case _ => None
  }

  function DecodeClean(s: string): Option<Bytes> {
    if |s| == 0 then Some([])
    else if |s| < 4 then None
    else
      match (DecodeQuantum(s[0], s[1], s[2], s[3], |s| == 4), DecodeClean(s[4..]))
      case (Some(b), Some(rest)) => Some(b + rest)
      case _ => None
  }

  /** `base64.StdEncoding.DecodeString`, which skips line breaks. */
  function Base64Decode(s: string): Option<Bytes> {
    DecodeClean(WithoutNewlines(s))
  }

  predicate Clean(s: string) {
    forall i :: 0 <= i < |s| ==> s[i] != '\n' && s[i] != '\r'
  }

  lemma {:induction false} CleanUnchanged(s: string)
    requires Clean(s)
    ensures WithoutNewlines(s) == s
  {
    if |s| > 0 {
      CleanUnchanged(s[1..]);
      assert [s[0]] + s[1..] == s;
    }
  }

  lemma {:induction false} Base64EncodeClean(b: Bytes)
    ensures Clean(Base64Encode(b))
  {
    if |b| >= 3 {
      Base64EncodeClean(b[3..]);
    }
  }

  lemma SixBitGroups(x: byte, y: byte, z: byte)
    ensures x / 4 * 4 + (x % 4 * 16 + y / 16) / 16 == x
    ensures (x % 4 * 16 + y / 16) % 16 * 16 + (y % 16 * 4 + z / 64) / 4 == y
    ensures (y % 16 * 4 + z / 64) % 4 * 64 + z % 64 == z
  {
  }

  lemma QuantumRoundTrip(x: byte, y: byte, z: byte, last: bool)
    ensures var q := Quantum(x, y, z);
      DecodeQuantum(q[0], q[1], q[2], q[3], last) == Some([x, y, z])
  {
    hide Base64Char, Base64Value;
    SixBitGroups(x, y, z);
  }

  lemma FirstThreeAndRest(b: Bytes)
    requires |b| >= 3
    ensures b == [b[0], b[1], b[2]] + b[3..]
  {
  }

  lemma EncodeFirstThree(b: Bytes)
    requires |b| >= 3
    ensures Base64Encode(b) == Quantum(b[0], b[1], b[2]) + Base64Encode(b[3..])
  {
    hide Quantum, Base64Char;
  }

  lemma {:induction false} EncodeSpells(b: Bytes)
    ensures SpellsBase64(Base64Encode(b), b)
  {
    if |b| >= 3 {
      hide Quantum, Base64Encode;
      EncodeSpells(b[3..]);
      EncodeFirstThree(b);
      assert (Quantum(b[0], b[1], b[2]) + Base64Encode(b[3..]))[4..] == Base64Encode(b[3..]);
    }
  }

  lemma Base64RoundTrip(b: Bytes)
    ensures Base64Decode(Base64Encode(b)) == Some(b)
  {
    Base64EncodeClean(b);
    CleanUnchanged(Base64Encode(b));
    EncodeSpells(b);
    DecodeCleanExact(Base64Encode(b), b);
  }

  lemma QuantumLength(a: char, b: char, c: char, d: char, last: bool)
    requires DecodeQuantum(a, b, c, d, last).Some?
    ensures c != '=' && d != '=' ==> |DecodeQuantum(a, b, c, d, last).value| == 3
    ensures !last ==> |DecodeQuantum(a, b, c, d, last).value| == 3
    ensures 0 < |DecodeQuantum(a, b, c, d, last).value| <= 3
  {
    hide Base64Value, Byte0, Byte1, Byte2;
  }

  /** Without line breaks a decodable string is whole quanta; without padding each gives three bytes. */
  lemma {:induction false} DecodedLength(s: string)
    requires DecodeClean(s).Some?
    ensures |s| % 4 == 0
    ensures '=' !in s ==> |DecodeClean(s).value| == 3 * (|s| / 4)
  {
    if |s| > 0 {
      AtLeastOneQuantum(s);
      hide Base64Value, DecodeQuantum, DecodeClean;
      DecodeFirstQuantum(s);
      DecodedLength(s[4..]);
      QuantumLength(s[0], s[1], s[2], s[3], |s| == 4);
      OneMoreQuantum(|s[4..]|);
    }
  }

  lemma AtLeastOneQuantum(s: string)
    requires DecodeClean(s).Some? && |s| > 0
    ensures |s| >= 4
  {
    hide DecodeQuantum;
  }

  lemma OneMoreQuantum(n: nat)
    ensures (n + 4) % 4 == n % 4 && 3 * ((n + 4) / 4) == 3 * (n / 4) + 3
  {
  }

  // ----- which strings decode -----

  /** The quanta of b one by one; the unused bits of the last character may be anything. */
  ghost predicate SpellsBase64(s: string, b: Bytes) {
    if |b| == 0 then s == ""
    else if |b| == 1 then
      && |s| == 4 && s[2] == s[3] == '=' && s[0] == Base64Char(b[0] / 4)
      && Base64Value(s[1]).Some? && Base64Value(s[1]).value / 16 == b[0] % 4
    else if |b| == 2 then
      && |s| == 4 && s[3] == '=' && s[0] == Base64Char(b[0] / 4) && s[1] == Base64Char(b[0] % 4 * 16 + b[1] / 16)
      && Base64Value(s[2]).Some? && Base64Value(s[2]).value / 4 == b[1] % 16
    else |s| >= 4 && s[..4] == Quantum(b[0], b[1], b[2]) && SpellsBase64(s[4..], b[3..])
  }

  lemma SixBits(v: Sextet, w: Sextet, x: Sextet, y: Sextet)
    ensures var a, b, c := Byte0(v, w), Byte1(w, x), Byte2(x, y);
      && a / 4 == v && a % 4 * 16 + b / 16 == w && b % 16 * 4 + c / 64 == x && c % 64 == y
      && a % 4 == w / 16 && b % 16 == x / 4
  {
  }

  lemma QuantumOfBytes(v: Sextet, w: Sextet, x: Sextet, y: Sextet)
    ensures Quantum(Byte0(v, w), Byte1(w, x), Byte2(x, y))
         == [Base64Char(v), Base64Char(w), Base64Char(x), Base64Char(y)]
  {
    hide Base64Char, Base64Value, Byte0, Byte1, Byte2;
    SixBits(v, w, x, y);
  }

  lemma FullQuantumExact(q: string, last: bool, x: byte, y: byte, z: byte)
    requires |q| == 4
    ensures DecodeQuantum(q[0], q[1], q[2], q[3], last) == Some([x, y, z]) <==> q == Quantum(x, y, z)
  {
    if q == Quantum(x, y, z) {
      QuantumRoundTrip(x, y, z, last);
    } else if DecodeQuantum(q[0], q[1], q[2], q[3], last) == Some([x, y, z]) {
      Base64ValueBound(q[0]);
      Base64ValueBound(q[1]);
      Base64ValueBound(q[2]);
      Base64ValueBound(q[3]);
      hide Base64Char, Base64Value, Byte0, Byte1, Byte2, Quantum;
      var d := DecodeQuantum(q[0], q[1], q[2], q[3], last).value;
      assert |d| == 3 && d[0] == x && d[1] == y && d[2] == z;
      QuantumOfBytes(Base64Value(q[0]).value, Base64Value(q[1]).value,
                     Base64Value(q[2]).value, Base64Value(q[3]).value);
    }
  }

  lemma CharIs(c: char, v: Sextet)
    ensures c == Base64Char(v) <==> Base64Value(c) == Some(v)
  {
    Base64ValueBound(c);
  }

  lemma OneByteOf(v: Sextet, w: Sextet, x: byte)
    ensures x == Byte0(v, w) <==> x / 4 == v && w / 16 == x % 4
  {
  }

  lemma TwoBytesOf(v: Sextet, w: Sextet, u: Sextet, x: byte, y: byte)
    ensures x == Byte0(v, w) && y == Byte1(w, u) <==> x / 4 == v && x % 4 * 16 + y / 16 == w && u / 4 == y % 16
  {
    SixBits(v, w, u, 0);
    SixBitGroups(x, y, 0);
  }

  lemma OneByteExact(q: string, x: byte)
    requires |q| == 4
    ensures DecodeQuantum(q[0], q[1], q[2], q[3], true) == Some([x]) <==> SpellsBase64(q, [x])
  {
    PaddingHasNoValue();
    hide Base64Char, Base64Value, Byte0, Byte1, Byte2;
    CharIs(q[0], x / 4);
    if Base64Value(q[0]).Some? && Base64Value(q[1]).Some? {
      OneByteOf(Base64Value(q[0]).value, Base64Value(q[1]).value, x);
    }
  }

  lemma TwoBytesExact(q: string, x: byte, y: byte)
    requires |q| == 4
    ensures DecodeQuantum(q[0], q[1], q[2], q[3], true) == Some([x, y]) <==> SpellsBase64(q, [x, y])
  {
    PaddingHasNoValue();
    hide Base64Char, Base64Value, Byte0, Byte1, Byte2;
    CharIs(q[0], x / 4);
    CharIs(q[1], x % 4 * 16 + y / 16);
    if Base64Value(q[0]).Some? && Base64Value(q[1]).Some? && Base64Value(q[2]).Some? {
      var v, w, u := Base64Value(q[0]).value, Base64Value(q[1]).value, Base64Value(q[2]).value;
      TwoBytesOf(v, w, u, x, y);
      PairsEqual(Byte0(v, w), Byte1(w, u), x, y);
    }
  }

  lemma PaddingHasNoValue()
    ensures Base64Value('=') == None
  {
  }

  lemma PairsEqual(a: byte, b: byte, x: byte, y: byte)
    ensures [a, b] == [x, y] <==> a == x && b == y
  {
    var s, t := [a, b], [x, y];
    assert s == t ==> s[0] == t[0] && s[1] == t[1];
  }

  lemma DecodeFirstQuantum(s: string)
    requires |s| >= 4
    ensures var q, rest := DecodeQuantum(s[0], s[1], s[2], s[3], |s| == 4), DecodeClean(s[4..]);
      DecodeClean(s) == if q.Some? && rest.Some? then Some(q.value + rest.value) else None
  {
    hide DecodeQuantum;
  }

  lemma DecodeLastQuantum(s: string)
    requires |s| == 4
    ensures DecodeClean(s) == DecodeQuantum(s[0], s[1], s[2], s[3], true)
  {
    hide DecodeQuantum;
    DecodeFirstQuantum(s);
    assert s[4..] == "";
    var q := DecodeQuantum(s[0], s[1], s[2], s[3], true);
    assert q.Some? ==> q.value + [] == q.value;
  }

  lemma SameFrontAndRest(x: Bytes, r: Bytes, y: Bytes, t: Bytes)
    requires |x| == |y|
    ensures x + r == y + t <==> x == y && r == t
  {
    if x + r == y + t {
      assert x == (x + r)[..|x|] && y == (y + t)[..|y|] && r == (x + r)[|x|..] && t == (y + t)[|y|..];
    }
  }

  lemma LongDecodesToMore(s: string, b: Bytes)
    requires |s| > 4 && |b| < 3
    ensures DecodeClean(s) != Some(b)
  {
    hide DecodeQuantum, DecodeClean;
    DecodeFirstQuantum(s);
    if DecodeQuantum(s[0], s[1], s[2], s[3], false).Some? {
      QuantumLength(s[0], s[1], s[2], s[3], false);
    }
  }

  lemma LongFirst(s: string, b: Bytes)
    requires |s| >= 4 && |b| >= 3
    ensures DecodeClean(s) == Some(b) <==> s[..4] == Quantum(b[0], b[1], b[2]) && DecodeClean(s[4..]) == Some(b[3..])
  {
    hide DecodeQuantum, DecodeClean, Quantum, Base64Char;
    DecodeFirstQuantum(s);
    FirstThreeAndRest(b);
    FullQuantumExact(s[..4], |s| == 4, b[0], b[1], b[2]);
    var q := DecodeQuantum(s[0], s[1], s[2], s[3], |s| == 4);
    if q.Some? {
      QuantumLength(s[0], s[1], s[2], s[3], |s| == 4);
      if |q.value| == 3 && DecodeClean(s[4..]).Some? {
        SameFrontAndRest(q.value, DecodeClean(s[4..]).value, [b[0], b[1], b[2]], b[3..]);
      } else if |q.value| < 3 {
        DecodeLastQuantum(s);
      }
    }
  }

  /** A string without line breaks decodes to b exactly when it spells the quanta of b. */
  lemma {:induction false} DecodeCleanExact(s: string, b: Bytes)
    ensures DecodeClean(s) == Some(b) <==> SpellsBase64(s, b)
    decreases |s|
  {
    if |s| >= 4 && |b| >= 3 {
      hide DecodeClean, Quantum;
      LongFirst(s, b);
      DecodeCleanExact(s[4..], b[3..]);
    } else if |s| > 4 {
      LongDecodesToMore(s, b);
    } else if |s| == 4 {
      ShortExact(s, b);
    }
  }

  lemma ShortExact(s: string, b: Bytes)
    requires |s| == 4 && |b| < 3
    ensures DecodeClean(s) == Some(b) <==> SpellsBase64(s, b)
  {
    hide DecodeQuantum, DecodeClean, SpellsBase64;
    DecodeLastQuantum(s);
    if |b| == 0 {
      OneQuantumIsNotEmpty(s, b);
    } else if |b| == 1 {
      OneByteExact(s, b[0]);
      assert b == [b[0]];
    } else {
      TwoBytesExact(s, b[0], b[1]);
      assert b == [b[0], b[1]];
    }
  }

  lemma OneQuantumIsNotEmpty(s: string, b: Bytes)
    requires |s| == 4 && |b| == 0
    ensures DecodeClean(s) != Some(b) && !SpellsBase64(s, b)
  {
    hide DecodeQuantum, DecodeClean;
    DecodeLastQuantum(s);
    if DecodeClean(s).Some? {
      QuantumLength(s[0], s[1], s[2], s[3], true);
    }
  }

  /** Line breaks do not count, wherever they stand. */
  lemma LineBreaksDoNotCount(a: string, c: char, b: string)
    requires c == '\n' || c == '\r'
    ensures Base64Decode(a + [c] + b) == Base64Decode(a + b)
  {
    WithoutNewlinesOfBoth(a + [c], b);
    WithoutNewlinesOfBoth(a, [c]);
    WithoutNewlinesOfBoth(a, b);
    LineBreakGoes(c);
    assert WithoutNewlines(a) + "" == WithoutNewlines(a);
  }

  lemma LineBreakGoes(c: char)
    requires c == '\n' || c == '\r'
    ensures WithoutNewlines([c]) == ""
  {
    assert [c][1..] == "";
  }

  lemma {:induction false} WithoutNewlinesOfBoth(a: string, b: string)
    ensures WithoutNewlines(a + b) == WithoutNewlines(a) + WithoutNewlines(b)
    decreases |a|
  {
    if |a| == 0 {
      assert a + b == b;
    } else {
      assert (a + b)[1..] == a[1..] + b;
      WithoutNewlinesOfBoth(a[1..], b);
    }
  }

  // ----- decimal -----

  function DecimalString(n: nat): (s: string)
    ensures |s| > 0
  {
    var digit := ('0' as int + n % 10) as char;
    if n < 10 then [digit] else DecimalString(n / 10) + [digit]
  }

  predicate AllDigits(s: string) {
    forall i :: 0 <= i < |s| ==> '0' <= s[i] <= '9'
  }

  function DigitsValue(s: string): nat
    requires AllDigits(s)
  {
    if |s| == 0 then 0 else 10 * DigitsValue(s[..|s| - 1]) + (s[|s| - 1] as int - '0' as int)
  }

  /** `SetString(s, 10)`: an optional sign, then one digit or more. */
  function ParseDecimal(s: string): Option<int> {
    var signed := |s| > 0 && (s[0] == '-' || s[0] == '+');
    var digits := if signed then s[1..] else s;
    if |digits| == 0 || !AllDigits(digits) then None
    else
      var magnitude: int := DigitsValue(digits);
      Some(if signed && s[0] == '-' then -magnitude else magnitude)
  }

  lemma {:induction false} DecimalDigits(n: nat)
    ensures AllDigits(DecimalString(n)) && DigitsValue(DecimalString(n)) == n
  {
    var s := DecimalString(n);
    if n < 10 {
      assert s[..0] == "";
    } else {
      DecimalDigits(n / 10);
      assert s[..|s| - 1] == DecimalString(n / 10);
    }
  }

  lemma DecimalRoundTrip(n: nat)
    ensures ParseDecimal(DecimalString(n)) == Some(n)
  {
    DecimalDigits(n);
    var s := DecimalString(n);
    assert '0' <= s[0] <= '9';
  }

  function ZeroDigits(z: nat): (s: string)
    ensures |s| == z
  {
    seq(z, _ => '0')
  }

  /** A sign or none in front of digits that mean m gives n. */
  ghost predicate Signed(s: string, digits: string, m: nat, n: int) {
    (n == m && s == digits) || (n == m && s == "+" + digits) || (n + m == 0 && s == "-" + digits)
  }

  /** The string is a sign or none, any number of zeros, and the decimal of the magnitude of n. */
  ghost predicate SpellsInt(s: string, n: int) {
    exists z: nat, m: nat :: Signed(s, ZeroDigits(z) + DecimalString(m), m, n)
  }

  /** A digit string is zeros in front of the decimal of its value. */
  lemma {:induction false} DigitsAreDecimal(d: string) returns (z: nat)
    requires AllDigits(d) && |d| > 0
    ensures d == ZeroDigits(z) + DecimalString(DigitsValue(d))
    decreases |d|
  {
    z := 0;
    var n := |d| - 1;
    var c := d[n] as int - '0' as int;
    if n == 0 {
      assert d[..0] == "";
      assert d == [d[0]];
    } else {
      var y := DigitsAreDecimal(d[..n]);
      var v := DigitsValue(d[..n]);
      assert d == d[..n] + [d[n]];
      if v == 0 {
        z := y + 1;
        assert DecimalString(0) == "0";
        assert ZeroDigits(y) + "0" == ZeroDigits(z);
      } else {
        z := y;
        assert (10 * v + c) / 10 == v && (10 * v + c) % 10 == c;
      }
    }
  }

  lemma {:induction false} ZerosInFront(z: nat, d: string)
    requires AllDigits(d)
    ensures AllDigits(ZeroDigits(z) + d) && DigitsValue(ZeroDigits(z) + d) == DigitsValue(d)
    decreases |d|, z
  {
    var s := ZeroDigits(z) + d;
    if |d| > 0 {
      assert s[..|s| - 1] == ZeroDigits(z) + d[..|d| - 1];
      ZerosInFront(z, d[..|d| - 1]);
    } else if z > 0 {
      assert s[..|s| - 1] == ZeroDigits(z - 1) + d;
      ZerosInFront(z - 1, d);
    }
  }

  lemma SpelledDigits(z: nat, m: nat)
    ensures var digits := ZeroDigits(z) + DecimalString(m);
      AllDigits(digits) && DigitsValue(digits) == m && |digits| > 0 && '0' <= digits[0] <= '9'
  {
    DecimalDigits(m);
    ZerosInFront(z, DecimalString(m));
  }

  lemma ParseSigned(s: string, digits: string, m: nat, n: int)
    requires AllDigits(digits) && |digits| > 0 && DigitsValue(digits) == m && Signed(s, digits, m, n)
    ensures ParseDecimal(s) == Some(n)
  {
    hide DigitsValue;
    assert '0' <= digits[0] <= '9';
    assert s != digits ==> s[1..] == digits;
  }

  lemma ParsedIsSigned(s: string, n: int) returns (digits: string)
    requires ParseDecimal(s) == Some(n)
    ensures AllDigits(digits) && |digits| > 0 && Signed(s, digits, DigitsValue(digits), n)
  {
    hide DigitsValue;
    var signed := |s| > 0 && (s[0] == '-' || s[0] == '+');
    digits := if signed then s[1..] else s;
    assert signed ==> s == [s[0]] + digits;
  }

  /** A string parses to n exactly when it spells n, so every other string is an error. */
  lemma ParseDecimalExact(s: string, n: int)
    ensures ParseDecimal(s) == Some(n) <==> SpellsInt(s, n)
  {
    hide DecimalString, ZeroDigits, DigitsValue, ParseDecimal, Signed;
    if ParseDecimal(s) == Some(n) {
      var digits := ParsedIsSigned(s, n);
      var z := DigitsAreDecimal(digits);
    }
    if SpellsInt(s, n) {
      var z: nat, m: nat :| Signed(s, ZeroDigits(z) + DecimalString(m), m, n);
      SpelledDigits(z, m);
      ParseSigned(s, ZeroDigits(z) + DecimalString(m), m, n);
    }
  }

  predicate IsInt64(n: int) {
    -0x8000_0000_0000_0000 <= n < 0x8000_0000_0000_0000
  }

  predicate IsSpace(c: char) {
    c == ' ' || 9 <= c as int <= 13
  }

  lemma Int64AndSpace(n: int, c: char)
    ensures IsInt64(n) <==> -(Pow2(63) as int) <= n < Pow2(63)
    ensures IsSpace(c) <==> c as int in {9, 10, 11, 12, 13, 32}
  {
    Pow2Of64();
    assert Pow2(64) == 2 * Pow2(63);
  }

  function SkipBlanks(s: string): string {
    if |s| > 0 && IsSpace(s[0]) && s[0] != '\n' then SkipBlanks(s[1..]) else s
  }

  function LeadingDigits(s: string): (d: string)
    ensures AllDigits(d) && d <= s
  {
    if |s| > 0 && '0' <= s[0] <= '9' then [s[0]] + LeadingDigits(s[1..]) else ""
  }

  /** What scanning with the verb %d leaves in a variable that held 0: it is untouched on any error. */
  function ScanInt(s: string): int {
    var t := SkipBlanks(s);
    var signed := |t| > 0 && (t[0] == '-' || t[0] == '+');
    var digits := LeadingDigits(if signed then t[1..] else t);
    var magnitude: int := DigitsValue(digits);
    var n := if signed && t[0] == '-' then -magnitude else magnitude;
    if |digits| > 0 && IsInt64(n) then n else 0
  }

  lemma {:induction false} LeadingDigitsOfAll(s: string)
    requires AllDigits(s)
    ensures LeadingDigits(s) == s
  {
    if |s| > 0 {
      LeadingDigitsOfAll(s[1..]);
    }
  }

  /** Scanning a printed number gives it back exactly when it fits an int64; else 0 is left. */
  lemma ScanIntOfDecimal(n: nat)
    ensures ScanInt(DecimalString(n)) == if IsInt64(n) then n else 0
  {
    hide DecimalString, LeadingDigits, DigitsValue;
    DecimalDigits(n);
    var s := DecimalString(n);
    assert '0' <= s[0] <= '9';
    LeadingDigitsOfAll(s);
  }

  predicate AllBlank(s: string) {
    forall i :: 0 <= i < |s| ==> IsSpace(s[i]) && s[i] != '\n'
  }

  lemma {:induction false} BlanksSkipped(blanks: string, t: string)
    requires AllBlank(blanks) && (t == "" || !IsSpace(t[0]) || t[0] == '\n')
    ensures SkipBlanks(blanks + t) == t
  {
    if |blanks| == 0 {
      assert blanks + t == t;
    } else {
      assert (blanks + t)[1..] == blanks[1..] + t;
      BlanksSkipped(blanks[1..], t);
    }
  }

  lemma {:induction false} DigitsRead(d: string, rest: string)
    requires AllDigits(d) && (rest == "" || !('0' <= rest[0] <= '9'))
    ensures LeadingDigits(d + rest) == d
  {
    if |d| == 0 {
      assert d + rest == rest;
    } else {
      assert (d + rest)[1..] == d[1..] + rest;
      DigitsRead(d[1..], rest);
    }
  }

  lemma SignedStart(t: string, digits: string, m: nat, n: int, rest: string)
    requires Signed(t, digits, m, n) && |digits| > 0 && '0' <= digits[0] <= '9'
    ensures |t| > 0 && !IsSpace(t[0])
    ensures var signed := t[0] == '-' || t[0] == '+';
      (if signed then (t + rest)[1..] else t + rest) == digits + rest
      && (if signed && t[0] == '-' then n + m == 0 else n == m)
  {
    assert t == digits ==> t + rest == digits + rest;
    assert t != digits ==> t[1..] == digits && (t + rest)[1..] == t[1..] + rest;
  }

  lemma ScanSigned(t: string, rest: string, digits: string, m: nat, n: int)
    requires AllDigits(digits) && |digits| > 0 && DigitsValue(digits) == m && Signed(t, digits, m, n)
    requires rest == "" || !('0' <= rest[0] <= '9')
    ensures |t| > 0 && !IsSpace(t[0])
    ensures SkipBlanks(t + rest) == t + rest ==> ScanInt(t + rest) == if IsInt64(n) then n else 0
  {
    hide DigitsValue, LeadingDigits, SkipBlanks, Signed, AllDigits;
    FirstDigit(digits);
    DigitsRead(digits, rest);
    SignedStart(t, digits, m, n, rest);
    assert (t + rest)[0] == t[0];
  }

  lemma FirstDigit(digits: string)
    requires AllDigits(digits) && |digits| > 0
    ensures '0' <= digits[0] <= '9'
  {
  }

  lemma ScanIntSkips(blanks: string, t: string)
    requires AllBlank(blanks) && (t == "" || !IsSpace(t[0]) || t[0] == '\n')
    ensures SkipBlanks(t) == t && ScanInt(blanks + t) == ScanInt(t)
  {
    hide LeadingDigits, DigitsValue, SkipBlanks;
    BlanksSkipped(blanks, t);
    BlanksSkipped("", t);
    assert "" + t == t;
  }

  /** Blanks are skipped, a number that fits an int64 is read, and what follows it is ignored. */
  lemma ScanIntReads(blanks: string, t: string, rest: string, n: int)
    requires AllBlank(blanks) && SpellsInt(t, n) && (rest == "" || !('0' <= rest[0] <= '9'))
    ensures ScanInt(blanks + (t + rest)) == if IsInt64(n) then n else 0
  {
    hide DecimalString, ZeroDigits, DigitsValue, ScanInt, Signed, SkipBlanks;
    var z: nat, m: nat :| Signed(t, ZeroDigits(z) + DecimalString(m), m, n);
    SpelledDigits(z, m);
    ScanSigned(t, rest, ZeroDigits(z) + DecimalString(m), m, n);
    assert (t + rest)[0] == t[0];
    ScanIntSkips(blanks, t + rest);
  }

  /** What does not begin with a number after the blanks leaves 0. */
  lemma NoIntToScan(blanks: string, t: string)
    requires AllBlank(blanks) && (t == "" || t[0] == '\n' || !(IsSpace(t[0]) || t[0] in "+-0123456789"))
    ensures ScanInt(blanks + t) == 0
  {
    BlanksSkipped(blanks, t);
  }
}
