/** The 32-byte <-> four uint64 packing, as Go, Solidity and the circuit each write it. */
module Packing {
  import opened Words

  // ----- Go: eight bytes read as one big-endian word -----

  function EightBytes(d: Digest, i: nat): (b: Bytes)
    requires i < 4
    ensures |b| == 8
  {
    d[i * 8..(i + 1) * 8]
  }

  function PackWord(d: Digest, i: nat): nat
    requires i < 4
  {
    BigEndian(EightBytes(d, i))
  }

  function Pack(d: Digest): (w: seq<nat>)
    ensures |w| == 4
  {
    [PackWord(d, 0), PackWord(d, 1), PackWord(d, 2), PackWord(d, 3)]
  }

  lemma FourSlices(a: Bytes, b: Bytes, c: Bytes, d: Bytes)
    requires |a| == |b| == |c| == |d| == 8
    ensures EightBytes(a + b + c + d, 0) == a && EightBytes(a + b + c + d, 1) == b
    ensures EightBytes(a + b + c + d, 2) == c && EightBytes(a + b + c + d, 3) == d
  {
  }

  lemma JoinSlices(d: Digest)
    ensures EightBytes(d, 0) + EightBytes(d, 1) + EightBytes(d, 2) + EightBytes(d, 3) == d
  {
  }

  // ----- circuit: bits of each word, cut into bytes from the top -----

  function BytesOfBits(bits: seq<bit>): (b: Bytes)
    requires |bits| % 8 == 0
    ensures |b| == |bits| / 8
  {
    if |bits| == 0 then [] else
      FromBitsBound(bits[..8]);
      assert Pow2(8) == 256;
      BytesOfBits(bits[8..]) + [FromBits(bits[..8])]
  }

  function UnpackWord(x: nat): (b: Bytes)
    ensures |b| == 8
  {
    BytesOfBits(ToBits(x, 64))
  }

  function Unpack(w: seq<nat>): Digest
    requires |w| == 4
  {
    UnpackWord(w[0]) + UnpackWord(w[1]) + UnpackWord(w[2]) + UnpackWord(w[3])
  }

  ghost predicate AreWords(w: seq<nat>) {
    forall i :: 0 <= i < |w| ==> w[i] < U64
  }

  lemma LowByteOfBits(bits: seq<bit>)
    requires |bits| >= 8
    ensures FromBits(bits[..8]) < 256
    ensures FromBits(bits) == FromBits(bits[..8]) + 256 * FromBits(bits[8..])
  {
    hide FromBits;
    FromBitsBound(bits[..8]);
    assert Pow2(8) == 256;
    FromBitsAppend(bits[..8], bits[8..]);
    assert bits[..8] + bits[8..] == bits;
  }

  lemma LastByteOfBits(bits: seq<bit>)
    requires |bits| % 8 == 0 && |bits| > 0
    ensures FromBits(bits[..8]) < 256 && BytesOfBits(bits) == BytesOfBits(bits[8..]) + [FromBits(bits[..8])]
  {
    hide FromBits, Pow2;
    LowByteOfBits(bits);
  }

  lemma BigEndianSnoc(b: Bytes, x: byte)
    ensures BigEndian(b + [x]) == 256 * BigEndian(b) + x
  {
    assert (b + [x])[..|b|] == b;
  }

  lemma {:induction false} BigEndianOfBits(bits: seq<bit>)
    requires |bits| % 8 == 0
    ensures BigEndian(BytesOfBits(bits)) == FromBits(bits)
  {
    if |bits| > 0 {
      hide FromBits, BytesOfBits, BigEndian;
      BigEndianOfBits(bits[8..]);
      LowByteOfBits(bits);
      LastByteOfBits(bits);
      BigEndianSnoc(BytesOfBits(bits[8..]), FromBits(bits[..8]));
    }
  }

  lemma WordRoundTrip(x: nat)
    requires x < U64
    ensures BigEndian(UnpackWord(x)) == x
  {
    Pow2Of64();
    BigEndianOfBits(ToBits(x, 64));
    ValueOfBits(x, 64);
  }

  lemma EightBytesRoundTrip(b: Bytes)
    requires |b| == 8
    ensures BigEndian(b) < U64 && UnpackWord(BigEndian(b)) == b
  {
    Pow2Of64();
    BigEndianBound(b);
    WordRoundTrip(BigEndian(b));
    BigEndianInjective(UnpackWord(BigEndian(b)), b);
  }

  /** Unpacking the packed words gives the 32 bytes back; the words fit a uint64. */
  lemma UnpackInvertsPack(d: Digest)
    ensures AreWords(Pack(d)) && Unpack(Pack(d)) == d
  {
    EightBytesRoundTrip(EightBytes(d, 0));
    EightBytesRoundTrip(EightBytes(d, 1));
    EightBytesRoundTrip(EightBytes(d, 2));
    EightBytesRoundTrip(EightBytes(d, 3));
    JoinSlices(d);
  }

  /** Packing the unpacked bytes gives the words back, exactly when they are uint64 words. */
  lemma PackInvertsUnpack(w: seq<nat>)
    requires |w| == 4
    ensures Pack(Unpack(w)) == w <==> AreWords(w)
  {
    var d := Unpack(w);
    FourSlices(UnpackWord(w[0]), UnpackWord(w[1]), UnpackWord(w[2]), UnpackWord(w[3]));
    if AreWords(w) {
      WordRoundTrip(w[0]);
      WordRoundTrip(w[1]);
      WordRoundTrip(w[2]);
      WordRoundTrip(w[3]);
    } else {
      UnpackInvertsPack(d);
    }
  }

  /** What `mint` hands the verifier for (root, lockTxHash). */
  function PackedInputs(root: Digest, lockTxHash: Digest): (w: seq<nat>)
    ensures |w| == 8
  {
    Pack(root) + Pack(lockTxHash)
  }

  lemma PackedInputsInjective(r1: Digest, t1: Digest, r2: Digest, t2: Digest)
    ensures PackedInputs(r1, t1) == PackedInputs(r2, t2) <==> r1 == r2 && t1 == t2
  {
    if PackedInputs(r1, t1) == PackedInputs(r2, t2) {
      assert Pack(r1) == PackedInputs(r1, t1)[..4] == PackedInputs(r2, t2)[..4] == Pack(r2);
      assert Pack(t1) == PackedInputs(r1, t1)[4..] == PackedInputs(r2, t2)[4..] == Pack(t2);
      UnpackInvertsPack(r1);
      UnpackInvertsPack(r2);
      UnpackInvertsPack(t1);
      UnpackInvertsPack(t2);
    }
  }

  // ----- Solidity: shifting the word up by a byte and or-ing the next byte in -----

  /** Bitwise or, bit by bit. */
  function BitOr(a: nat, b: nat): nat {
    if a == 0 && b == 0 then 0
    else (if a % 2 == 1 || b % 2 == 1 then 1 else 0) + 2 * BitOr(a / 2, b / 2)
  }

  lemma {:induction false} BitOrDisjoint(a: nat, b: nat, n: nat)
    requires b < Pow2(n)
    ensures BitOr(a * Pow2(n), b) == a * Pow2(n) + b
    decreases n, a
  {
    if n == 0 {
      BitOrZero(a);
    } else {
      var half := a * Pow2(n - 1);
      assert a * Pow2(n) == 2 * half;
      BitOrDisjoint(a, b / 2, n - 1);
    }
  }

  lemma {:induction false} BitOrZero(a: nat)
    ensures BitOr(a, 0) == a
  {
    if a > 0 {
      BitOrZero(a / 2);
    }
  }

  /** Shifting a uint64 up by eight: the bits that pass bit 63 are lost. */
  function ShiftLeft8(val: nat): nat {
    val * 256 % U64
  }

  lemma BitOrByte(a: nat, b: byte)
    ensures BitOr(a * 256, b) == a * 256 + b
  {
    assert Pow2(8) == 256;
    BitOrDisjoint(a, b, 8);
  }

  lemma NothingShiftedOut(bytes: Bytes)
    requires |bytes| <= 7
    ensures ShiftLeft8(BigEndian(bytes)) == BigEndian(bytes) * 256
  {
    BigEndianBound(bytes);
    Pow2Monotone(8 * |bytes|, 56);
    EightMoreBits(56);
    Pow2Of64();
    SmallModulo(BigEndian(bytes) * 256, U64);
  }

  /** One turn of the loop appends a byte: nothing is shifted out and the or does not overlap. */
  lemma ShiftOrAppends(word: Bytes, j: nat)
    requires j < |word| <= 8
    ensures BitOr(ShiftLeft8(BigEndian(word[..j])), word[j]) == BigEndian(word[..j + 1])
  {
    var val := BigEndian(word[..j]);
    NothingShiftedOut(word[..j]);
    BitOrByte(val, word[j]);
    assert word[..j + 1][..j] == word[..j];
  }

  /** One word: the accumulating shift/or loop, in 64-bit arithmetic. */
  method SolidityWord(d: Digest, i: nat) returns (val: nat)
    requires i < 4
    ensures val == PackWord(d, i)
  {
    val := 0;
    ghost var word := EightBytes(d, i);
    for j := 0 to 8
      invariant val == BigEndian(word[..j])
    {
      ShiftOrAppends(word, j);
      val := BitOr(ShiftLeft8(val), d[i * 8 + j]);
    }
    assert word[..8] == word;
  }

  /** `getPackedInputs`: four words of the root, then four of the transaction hash. */
  method GetPackedInputs(root: Digest, lockTxHash: Digest) returns (packedInputs: seq<nat>)
    ensures packedInputs == PackedInputs(root, lockTxHash)
  {
    var words := new nat[8];
    for i := 0 to 4
      invariant words[..i] == Pack(root)[..i]
    {
      words[i] := SolidityWord(root, i);
    }
    for i := 0 to 4
      invariant words[..4 + i] == Pack(root) + Pack(lockTxHash)[..i]
    {
      words[4 + i] := SolidityWord(lockTxHash, i);
    }
    packedInputs := words[..];
  }
}
