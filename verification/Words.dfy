/** Bytes, powers of two, little-endian bit sequences and big-endian numbers. */
module Words {

  type byte = x: int | 0 <= x < 256
  type bit = x: int | 0 <= x < 2
  type Bytes = seq<byte>

  /** A 32-byte value: a hash, a Merkle root, a `bytes32`. */
  type Digest = s: Bytes | |s| == 32 witness seq(32, _ => 0)

  function Zeros(n: nat): (z: Bytes)
    ensures |z| == n
  {
    seq(n, _ => 0)
  }

  /** SHA-256 stays abstract: any function from byte strings to 32 bytes. */
  type Sha256 = Bytes -> Digest

  datatype Option<+T> = None | Some(value: T)

  const U64: nat := 0x1_0000_0000_0000_0000

  function Pow2(n: nat): (r: nat)
    ensures 1 <= r
  {
    if n == 0 then 1 else 2 * Pow2(n - 1)
  }

  lemma {:induction false} Pow2Monotone(m: nat, n: nat)
    requires m <= n
    ensures Pow2(m) <= Pow2(n)
    ensures m < n ==> 2 * Pow2(m) <= Pow2(n)
    decreases n - m
  {
    if m < n {
      Pow2Monotone(m, n - 1);
    }
  }

  lemma {:induction false} Pow2Sum(m: nat, n: nat)
    ensures Pow2(m + n) == Pow2(m) * Pow2(n)
    decreases m
  {
    if m > 0 {
      Pow2Sum(m - 1, n);
      assert Pow2(m + n) == 2 * Pow2(m - 1 + n);
      DoubleProduct(Pow2(m - 1), Pow2(n));
    }
  }

  lemma Pow2Of64()
    ensures Pow2(64) == U64
  {
    assert Pow2(10) == 1024;
    assert Pow2(20) == 1024 * 1024;
    assert Pow2(30) == 1024 * 1024 * 1024;
    assert Pow2(40) == 1024 * 1024 * 1024 * 1024;
    assert Pow2(50) == 1024 * 1024 * 1024 * 1024 * 1024;
    assert Pow2(60) == 1024 * 1024 * 1024 * 1024 * 1024 * 1024;
  }

  lemma SmallModulo(x: nat, m: nat)
    requires x < m
    ensures x % m == x
  {
  }

  lemma OneModulusMore(x: nat, m: nat)
    requires x < m
    ensures (x + m) % m == x
  {
  }

  // ----- little-endian bits -----

  /** The low `n` bits of x, least significant first; a negative x is read in two's complement. */
  function ToBits(x: int, n: nat): (b: seq<bit>)
    ensures |b| == n
    decreases n, x
  {
    if n == 0 then [] else [x % 2] + ToBits(x / 2, n - 1)
  }

  function FromBits(b: seq<bit>): nat {
    if |b| == 0 then 0 else b[0] + 2 * FromBits(b[1..])
  }

  lemma {:induction false} FromBitsBound(b: seq<bit>)
    ensures FromBits(b) < Pow2(|b|)
  {
    if |b| > 0 {
      FromBitsBound(b[1..]);
    }
  }

  lemma {:induction false} BitsOfValue(b: seq<bit>)
    ensures ToBits(FromBits(b), |b|) == b
  {
    if |b| > 0 {
      BitsOfValue(b[1..]);
      assert FromBits(b) % 2 == b[0] && FromBits(b) / 2 == FromBits(b[1..]);
    }
  }

  lemma {:induction false} ValueOfBits(x: nat, n: nat)
    requires x < Pow2(n)
    ensures FromBits(ToBits(x, n)) == x
  {
    if n > 0 {
      ValueOfBits(x / 2, n - 1);
      assert ToBits(x, n)[1..] == ToBits(x / 2, n - 1);
    }
  }

  lemma DoubleProduct(x: int, y: int)
    ensures 2 * (x * y) == (2 * x) * y
  {
  }

  lemma {:induction false} FromBitsAppend(a: seq<bit>, b: seq<bit>)
    ensures FromBits(a + b) == FromBits(a) + Pow2(|a|) * FromBits(b)
  {
    if |a| == 0 {
      assert a + b == b;
    } else {
      FromBitsAppend(a[1..], b);
      assert (a + b)[1..] == a[1..] + b;
      DoubleProduct(Pow2(|a| - 1), FromBits(b));
    }
  }

  lemma {:induction false} FromBitsSnoc(b: seq<bit>, top: bit)
    ensures FromBits(b + [top]) == FromBits(b) + if top == 1 then Pow2(|b|) else 0
  {
    if |b| == 0 {
      assert b + [top] == [top] && [top][1..] == [];
    } else {
      assert (b + [top])[1..] == b[1..] + [top];
      FromBitsSnoc(b[1..], top);
    }
  }

  /** The low bits do not see what is added above them. */
  lemma {:induction false} LowBits(x: int, t: int, j: nat, n: nat)
    requires n <= j
    ensures ToBits(x + t * Pow2(j), n) == ToBits(x, n)
    decreases n
  {
    if n > 0 {
      var half := t * Pow2(j - 1);
      assert t * Pow2(j) == 2 * half;
      assert (x + 2 * half) % 2 == x % 2 && (x + 2 * half) / 2 == x / 2 + half;
      LowBits(x / 2, t, j - 1, n - 1);
    }
  }

  lemma {:induction false} ToBitsPrefix(x: int, m: nat, n: nat)
    requires m <= n
    ensures ToBits(x, n)[..m] == ToBits(x, m)
    decreases m
  {
    if m > 0 {
      ToBitsPrefix(x / 2, m - 1, n - 1);
      assert ToBits(x, n)[..m] == [x % 2] + ToBits(x / 2, n - 1)[..m - 1];
    }
  }

  // ----- big-endian numbers -----

  /** The number a byte string spells, most significant byte first. */
  function BigEndian(b: Bytes): nat {
    if |b| == 0 then 0 else 256 * BigEndian(b[..|b| - 1]) + b[|b| - 1]
  }

  /** The `n` bytes of x, most significant first. */
  function ToBytes(x: nat, n: nat): (b: Bytes)
    ensures |b| == n
  {
    if n == 0 then [] else ToBytes(x / 256, n - 1) + [x % 256]
  }

  lemma {:induction false} BigEndianInjective(a: Bytes, b: Bytes)
    requires |a| == |b| && BigEndian(a) == BigEndian(b)
    ensures a == b
  {
    if |a| > 0 {
      var n := |a| - 1;
      assert a[n] == b[n] && BigEndian(a[..n]) == BigEndian(b[..n]);
      BigEndianInjective(a[..n], b[..n]);
      assert a == a[..n] + [a[n]] && b == b[..n] + [b[n]];
    }
  }

  lemma {:induction false} BigEndianBound(b: Bytes)
    ensures BigEndian(b) < Pow2(8 * |b|)
  {
    if |b| > 0 {
      BigEndianBound(b[..|b| - 1]);
      EightMoreBits(8 * (|b| - 1));
    }
  }

  lemma EightMoreBits(n: nat)
    ensures Pow2(n + 8) == 256 * Pow2(n)
  {
    assert Pow2(n + 2) == 2 * Pow2(n + 1) == 4 * Pow2(n);
    assert Pow2(n + 4) == 2 * Pow2(n + 3) == 4 * Pow2(n + 2);
    assert Pow2(n + 6) == 2 * Pow2(n + 5) == 4 * Pow2(n + 4);
    assert Pow2(n + 8) == 2 * Pow2(n + 7) == 4 * Pow2(n + 6);
  }

  lemma {:induction false} BigEndianOfBytes(x: nat, n: nat)
    requires x < Pow2(8 * n)
    ensures BigEndian(ToBytes(x, n)) == x
  {
    if n > 0 {
      EightMoreBits(8 * (n - 1));
      BigEndianOfBytes(x / 256, n - 1);
      var b := ToBytes(x, n);
      assert b[..n - 1] == ToBytes(x / 256, n - 1);
    }
  }
}
