/** The circuit's constraint gadgets over Z_p, for a prime p above 2^64. */
module Field {
  import opened Words

  /** Multiplication in Z_p. */
  function Mul(p: nat, a: nat, b: nat): nat
    requires 0 < p
  {
    (a * b) % p
  }

  /** p is prime: two factors that are not zero in Z_p have a product that is not zero. */
  ghost predicate PrimeModulus(p: nat) {
    && 1 < p
    && forall a: nat, b: nat :: 0 < a < p && 0 < b < p ==> Mul(p, a, b) != 0
  }

  /** `AssertIsBoolean`: b * (1 - b) = 0 in the field. */
  predicate BooleanConstraint(p: nat, b: nat)
    requires b < p
  {
    Mul(p, b, p + 1 - b) == 0
  }

  lemma BooleanConstraintExact(p: nat, b: nat)
    requires PrimeModulus(p) && b < p
    ensures BooleanConstraint(p, b) <==> b <= 1
  {
    if b == 0 {
      assert Mul(p, 0, p + 1) == 0;
    } else if b == 1 {
      assert Mul(p, 1, p) == 0;
    } else {
      assert Mul(p, b, p + 1 - b) != 0;
    }
  }

  /** `Select(b, x, y)`: the linear form b * (x - y) + y. */
  function Select(p: nat, b: nat, x: nat, y: nat): (r: nat)
    requires x < p && y < p
    ensures r < p
    ensures b == 1 ==> r == x
    ensures b == 0 ==> r == y
  {
    OneModulusMore(x, p);
    SmallModulo(y, p);
    (b * (x + p - y) + y) % p
  }

  /** `cmp.IsLess` compares the canonical representatives. */
  function IsLess(a: nat, b: nat): bit {
    if a < b then 1 else 0
  }

  function WeightedSum(b: seq<nat>): nat {
    if |b| == 0 then 0 else b[0] + 2 * WeightedSum(b[1..])
  }

  lemma {:induction false} WeightedSumOfBits(b: seq<bit>)
    ensures WeightedSum(b) == FromBits(b)
  {
    if |b| > 0 {
      WeightedSumOfBits(b[1..]);
    }
  }

  /** `FromBinary`: the weighted sum of the bits, in the field. */
  function FromBinary(p: nat, b: seq<nat>): nat
    requires 0 < p
  {
    WeightedSum(b) % p
  }

  /** The constraints `ToBinary(x, n)` puts on the bits the prover supplies. */
  ghost predicate Decomposes(p: nat, x: nat, b: seq<nat>, n: nat)
    requires 0 < p
  {
    && |b| == n
    && (forall i :: 0 <= i < n ==> b[i] < p && BooleanConstraint(p, b[i]))
    && FromBinary(p, b) == x
  }

  /** Exactly one assignment of n <= 64 bits meets them when x < 2^n, and none otherwise. */
  lemma DecompositionExact(p: nat, x: nat, b: seq<nat>, n: nat)
    requires PrimeModulus(p) && U64 < p && x < p && n <= 64
    ensures Decomposes(p, x, b, n) <==> x < Pow2(n) && b == ToBits(x, n)
  {
    if Decomposes(p, x, b, n) {
      forall i | 0 <= i < n
        ensures b[i] < 2
      {
        BooleanConstraintExact(p, b[i]);
      }
      BitsSumBelowModulus(p, b);
      FromBitsBound(b);
      BitsOfValue(b);
    } else if x < Pow2(n) && b == ToBits(x, n) {
      var bits := ToBits(x, n);
      forall i | 0 <= i < n
        ensures bits[i] < p && BooleanConstraint(p, bits[i])
      {
        BooleanConstraintExact(p, bits[i]);
      }
      ValueOfBits(x, n);
      BitsSumBelowModulus(p, bits);
    }
  }

  lemma BitsSumBelowModulus(p: nat, bits: seq<bit>)
    requires U64 < p && |bits| <= 64
    ensures FromBinary(p, bits) == FromBits(bits)
  {
    Pow2Of64();
    Pow2Monotone(|bits|, 64);
    FromBitsBound(bits);
    WeightedSumOfBits(bits);
    SmallModulo(FromBits(bits), p);
  }

  lemma DecompositionExists(p: nat, x: nat, n: nat)
    requires PrimeModulus(p) && U64 < p && x < p && n <= 64
    ensures (exists b: seq<nat> :: Decomposes(p, x, b, n)) <==> x < Pow2(n)
  {
    if x < Pow2(n) {
      DecompositionExact(p, x, ToBits(x, n), n);
    }
    forall b: seq<nat> | Decomposes(p, x, b, n)
      ensures x < Pow2(n)
    {
      DecompositionExact(p, x, b, n);
    }
  }

  /** Witness generation for `ToBinary`: the hint peels bits off x; what is left must be zero. */
  method ToBinary(p: nat, x: nat, n: nat) returns (satisfied: bool, bits: seq<nat>)
    requires PrimeModulus(p) && U64 < p && x < p && n <= 64
    ensures satisfied <==> exists b: seq<nat> :: Decomposes(p, x, b, n)
    ensures satisfied ==> x < Pow2(n) && bits == ToBits(x, n)
    ensures !satisfied ==> Pow2(n) <= x
  {
    DecompositionExists(p, x, n);
    satisfied, bits := PeelBits(x, n);
  }

  method PeelBits(x: nat, n: nat) returns (done: bool, bits: seq<nat>)
    ensures bits == ToBits(x, n)
    ensures done <==> x < Pow2(n)
  {
    bits := [];
    var rest := x;
    for i := 0 to n
      invariant |bits| == i && 0 <= rest
      invariant bits + ToBits(rest, n - i) == ToBits(x, n)
      invariant rest < Pow2(n - i) <==> x < Pow2(n)
    {
      assert bits + ([rest % 2] + ToBits(rest / 2, n - i - 1)) == bits + [rest % 2] + ToBits(rest / 2, n - i - 1);
      bits := bits + [rest % 2];
      rest := rest / 2;
    }
    assert bits + [] == bits;
    assert Pow2(0) == 1;
    done := rest == 0;
  }
}
