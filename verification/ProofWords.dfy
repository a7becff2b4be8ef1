/** The Groth16 proof on its way to the verifier: exported in decimal, parsed, flattened. */
module ProofWords {
  import opened Words
  import opened Text
  import opened Source

  /** The modulus of BN254's base field. */
  const BASE_FIELD: nat := 0x3064_4e72_e131_a029_b850_45b6_8181_585d_9781_6a91_6871_ca8d_3c20_8c16_d87c_fd47

  type Coordinate = x: int | 0 <= x < BASE_FIELD

  /** A proof over BN254; an element A0 + A1*u of the quadratic extension is two coordinates. */
  datatype Groth16Proof = Groth16Proof(
    ArX: Coordinate, ArY: Coordinate,
    BsXA0: Coordinate, BsXA1: Coordinate, BsYA0: Coordinate, BsYA1: Coordinate,
    KrsX: Coordinate, KrsY: Coordinate,
    commitments: seq<(Coordinate, Coordinate)>,
    pokX: Coordinate, pokY: Coordinate)

  /** Coordinates the library prints as plain decimals: zero, and those more than 65535 below the modulus. */
  predicate PrintsPlainly(x: Coordinate) {
    x == 0 || BASE_FIELD - x > 0xFFFF
  }

  /** A field element as the library prints it: one just below the modulus as a small negative number. */
  function ElementString(x: Coordinate): (s: string) {
    if PrintsPlainly(x) then DecimalString(x) else "-" + DecimalString(BASE_FIELD - x)
  }

  /** The string fields of the JSON file; arrays have length two. */
  datatype ProofFile = ProofFile(
    a: seq<string>, b: seq<seq<string>>, c: seq<string>, commitments: seq<string>, commitmentPok: seq<string>)

  predicate FileShape(f: ProofFile) {
    && |f.a| == |f.b| == |f.c| == |f.commitments| == |f.commitmentPok| == 2
    && |f.b[0]| == |f.b[1]| == 2
  }

  function Export(p: Groth16Proof): (f: ProofFile)
    ensures FileShape(f)
  {
    ProofFile(
      [ElementString(p.ArX), ElementString(p.ArY)],
      [[ElementString(p.BsXA1), ElementString(p.BsXA0)], [ElementString(p.BsYA1), ElementString(p.BsYA0)]],
      [ElementString(p.KrsX), ElementString(p.KrsY)],
      if |p.commitments| > 0 then [ElementString(p.commitments[0].0), ElementString(p.commitments[0].1)]
      else ["0", "0"],
      [ElementString(p.pokX), ElementString(p.pokY)])
  }

  /** The proof arguments of `mint`: uint256[2], uint256[2][2] and three more uint256[2]. */
  datatype MintArguments = MintArguments(
    a: seq<nat>, b: seq<seq<nat>>, c: seq<nat>, commitments: seq<nat>, commitmentPok: seq<nat>)

  type MintWords = w: MintArguments | WordsShape(w)
    witness MintArguments([0, 0], [[0, 0], [0, 0]], [0, 0], [0, 0], [0, 0])

  predicate WordsShape(w: MintArguments) {
    && |w.a| == |w.b| == |w.c| == |w.commitments| == |w.commitmentPok| == 2
    && |w.b[0]| == |w.b[1]| == 2
  }

  /** A parsed word as the ABI encodes it: 256 bits, two's complement. */
  function Word(s: string): Option<nat> {
    match ParseDecimal(s)
    case Some(v) => Some(v % U256)
    case None => None
  }

  predicate Parses(s: seq<string>) {
    forall i :: 0 <= i < |s| ==> Word(s[i]).Some?
  }

  function WordsOf(s: seq<string>): (w: seq<nat>)
    requires Parses(s)
    ensures |w| == |s|
  {
    seq(|s|, i requires 0 <= i < |s| => Word(s[i]).value)
  }

  predicate FileParses(f: ProofFile)
    requires FileShape(f)
  {
    Parses(f.a) && Parses(f.b[0]) && Parses(f.b[1]) && Parses(f.c) && Parses(f.commitments) && Parses(f.commitmentPok)
  }

  /** What `SubmitProof` passes on; a string that is no number leaves a nil, which cannot be encoded. */
  function ParseFile(f: ProofFile): Option<MintWords>
    requires FileShape(f)
  {
    if FileParses(f) then
      Some(MintArguments(
        WordsOf(f.a), [WordsOf(f.b[0]), WordsOf(f.b[1])], WordsOf(f.c),
        WordsOf(f.commitments), WordsOf(f.commitmentPok)))
    else None
  }

  /** The twelve strings of a file in the order of the arguments. */
  function TwelveStrings(f: ProofFile): (s: seq<string>)
    requires FileShape(f)
    ensures |s| == 12
  {
    [f.a[0], f.a[1], f.b[0][0], f.b[0][1], f.b[1][0], f.b[1][1], f.c[0], f.c[1],
     f.commitments[0], f.commitments[1], f.commitmentPok[0], f.commitmentPok[1]]
  }

  function TwelveWords(w: MintWords): (s: seq<nat>)
    ensures |s| == 12
  {
    [w.a[0], w.a[1], w.b[0][0], w.b[0][1], w.b[1][0], w.b[1][1], w.c[0], w.c[1],
     w.commitments[0], w.commitments[1], w.commitmentPok[0], w.commitmentPok[1]]
  }

  /** A word is what the string spells, in two's complement, and none if it spells no number. */
  lemma WordExact(s: string, n: int)
    requires 0 <= n + U256 && n < U256
    ensures SpellsInt(s, n) ==> Word(s) == Some(if n < 0 then n + U256 else n)
    ensures Word(s) == None <==> forall m: int :: !SpellsInt(s, m)
  {
    hide ParseDecimal, SpellsInt;
    forall m: int
      ensures ParseDecimal(s) == Some(m) <==> SpellsInt(s, m)
    {
      ParseDecimalExact(s, m);
    }
  }

  /** A file parses exactly when all twelve strings do, each to the word at its own place. */
  lemma ParseFileExact(f: ProofFile)
    requires FileShape(f)
    ensures ParseFile(f) == None <==> exists k :: 0 <= k < 12 && Word(TwelveStrings(f)[k]) == None
    ensures ParseFile(f).Some? ==> forall k :: 0 <= k < 12 ==>
      Word(TwelveStrings(f)[k]) == Some(TwelveWords(ParseFile(f).value)[k])
  {
    hide Word;
    var s := TwelveStrings(f);
    assert s[..2] == f.a && s[2..4] == f.b[0] && s[4..6] == f.b[1] && s[6..8] == f.c
           && s[8..10] == f.commitments && s[10..12] == f.commitmentPok;
    if !FileParses(f) {
      SomeStringFails(s);
    } else {
      AllStringsParse(s);
    }
  }

  lemma SomeStringFails(s: seq<string>)
    requires |s| == 12
    requires !(Parses(s[..2]) && Parses(s[2..4]) && Parses(s[4..6]) && Parses(s[6..8]) && Parses(s[8..10])
               && Parses(s[10..12]))
    ensures exists k :: 0 <= k < 12 && Word(s[k]) == None
  {
    hide Word;
    var at := if !Parses(s[..2]) then 0 else if !Parses(s[2..4]) then 2 else if !Parses(s[4..6]) then 4
      else if !Parses(s[6..8]) then 6 else if !Parses(s[8..10]) then 8 else 10;
    var part := s[at..at + 2];
    assert !Parses(part);
    var i :| 0 <= i < 2 && Word(part[i]).None?;
    assert part[i] == s[at + i];
  }

  lemma AllStringsParse(s: seq<string>)
    requires |s| == 12
    requires Parses(s[..2]) && Parses(s[2..4]) && Parses(s[4..6]) && Parses(s[6..8]) && Parses(s[8..10])
             && Parses(s[10..12])
    ensures Parses(s)
  {
    hide Word;
    forall k | 0 <= k < 12
      ensures Word(s[k]).Some?
    {
      assert s[k] == s[k / 2 * 2..k / 2 * 2 + 2][k % 2];
    }
  }

  /** One argument array, each of its strings read as a decimal number. */
  method ParseArray(s: seq<string>) returns (ok: bool, words: seq<nat>)
    ensures ok == Parses(s)
    ensures ok ==> words == WordsOf(s)
  {
    var a := new nat[|s|];
    for i := 0 to |s|
      invariant forall k :: 0 <= k < i ==> Word(s[k]) == Some(a[k])
    {
      var v := Word(s[i]);
      if v == None {
        return false, [];
      }
      a[i] := v.value;
    }
    ok, words := true, a[..];
  }

  /** The parsing part of `SubmitProof`. */
  method ParseProof(f: ProofFile) returns (out: Option<MintWords>)
    requires FileShape(f)
    ensures out == ParseFile(f)
  {
    var ok0, a := ParseArray(f.a);
    var ok1, c := ParseArray(f.c);
    var ok2, commits := ParseArray(f.commitments);
    var ok3, pok := ParseArray(f.commitmentPok);
    var ok4, b0 := ParseArray(f.b[0]);
    var ok5, b1 := ParseArray(f.b[1]);
    out := if ok0 && ok1 && ok2 && ok3 && ok4 && ok5 then Some(MintArguments(a, [b0, b1], c, commits, pok)) else None;
  }

  /** The eight words `mint` hands the verifier. */
  function Flatten(w: MintWords): (p: seq<nat>)
    ensures |p| == 8
  {
    [w.a[0], w.a[1], w.b[0][0], w.b[0][1], w.b[1][0], w.b[1][1], w.c[0], w.c[1]]
  }

  /** The word a printed coordinate arrives as. */
  function Arrives(x: Coordinate): (v: nat) {
    if PrintsPlainly(x) then x else U256 - (BASE_FIELD - x)
  }

  lemma WordArrives(x: Coordinate)
    ensures Word(ElementString(x)) == Some(Arrives(x))
    ensures Arrives(x) == x <==> PrintsPlainly(x)
    ensures !PrintsPlainly(x) ==> Arrives(x) >= BASE_FIELD
  {
    if PrintsPlainly(x) {
      DecimalRoundTrip(x);
      SmallModulo(x, U256);
    } else {
      DecimalDigits(BASE_FIELD - x);
      assert ("-" + DecimalString(BASE_FIELD - x))[1..] == DecimalString(BASE_FIELD - x);
      assert (-(BASE_FIELD - x)) % U256 == U256 - (BASE_FIELD - x);
    }
  }

  lemma PairArrives(x: Coordinate, y: Coordinate)
    ensures Parses([ElementString(x), ElementString(y)])
    ensures WordsOf([ElementString(x), ElementString(y)]) == [Arrives(x), Arrives(y)]
  {
    hide ElementString, Word, Arrives;
    WordArrives(x);
    WordArrives(y);
  }

  /** The arguments a proof means: Bs with the imaginary coordinates first (EIP-197), zeros for no commitment. */
  function Coordinates(p: Groth16Proof): (w: MintWords) {
    MintArguments(
      [p.ArX, p.ArY],
      [[p.BsXA1, p.BsXA0], [p.BsYA1, p.BsYA0]],
      [p.KrsX, p.KrsY],
      if |p.commitments| > 0 then [p.commitments[0].0, p.commitments[0].1] else [0, 0],
      [p.pokX, p.pokY])
  }

  /** Every coordinate that is exported prints plainly. */
  predicate PrintsWell(p: Groth16Proof) {
    && PrintsPlainly(p.ArX) && PrintsPlainly(p.ArY)
    && PrintsPlainly(p.BsXA0) && PrintsPlainly(p.BsXA1) && PrintsPlainly(p.BsYA0) && PrintsPlainly(p.BsYA1)
    && PrintsPlainly(p.KrsX) && PrintsPlainly(p.KrsY)
    && (|p.commitments| > 0 ==> PrintsPlainly(p.commitments[0].0) && PrintsPlainly(p.commitments[0].1))
    && PrintsPlainly(p.pokX) && PrintsPlainly(p.pokY)
  }

  /** Exporting and parsing always works, and gives each coordinate in its place, as it arrives. */
  lemma ExportArrives(p: Groth16Proof)
    ensures ParseFile(Export(p)) == Some(MintArguments(
      [Arrives(p.ArX), Arrives(p.ArY)],
      [[Arrives(p.BsXA1), Arrives(p.BsXA0)], [Arrives(p.BsYA1), Arrives(p.BsYA0)]],
      [Arrives(p.KrsX), Arrives(p.KrsY)],
      if |p.commitments| > 0 then [Arrives(p.commitments[0].0), Arrives(p.commitments[0].1)] else [0, 0],
      [Arrives(p.pokX), Arrives(p.pokY)]))
  {
    hide Arrives, ElementString, Parses, WordsOf;
    PairArrives(p.ArX, p.ArY);
    PairArrives(p.BsXA1, p.BsXA0);
    PairArrives(p.BsYA1, p.BsYA0);
    PairArrives(p.KrsX, p.KrsY);
    PairArrives(p.pokX, p.pokY);
    if |p.commitments| > 0 {
      PairArrives(p.commitments[0].0, p.commitments[0].1);
    } else {
      NoCommitmentArrives();
    }
  }

  lemma ExportParses(p: Groth16Proof)
    ensures ParseFile(Export(p)).Some?
  {
    ExportArrives(p);
  }

  lemma NoCommitmentArrives()
    ensures Parses(["0", "0"]) && WordsOf(["0", "0"]) == [0, 0]
  {
    assert DecimalString(0) == "0";
    PairArrives(0, 0);
  }

  /**
   * Exporting, parsing and flattening a proof gives Ar, then Bs with the imaginary coordinate
   * first, then Krs, the first commitment and the proof of knowledge, exactly when every exported
   * coordinate is zero or more than 65535 below the modulus.
   */
  lemma ProofWordsSurvive(p: Groth16Proof)
    ensures ParseFile(Export(p)) == Some(Coordinates(p)) <==> PrintsWell(p)
    ensures Flatten(Coordinates(p)) == [p.ArX, p.ArY, p.BsXA1, p.BsXA0, p.BsYA1, p.BsYA0, p.KrsX, p.KrsY]
  {
    hide Export, ParseFile, PrintsPlainly, Arrives;
    ExportArrives(p);
    forall x: Coordinate
      ensures Arrives(x) == x <==> PrintsPlainly(x)
    {
      WordArrives(x);
    }
  }

  /** The largest coordinate prints as "-1" and arrives as 2^256 - 1. */
  lemma LargestCoordinateIsLost()
    ensures ElementString(BASE_FIELD - 1) == "-1" && Word("-1") == Some(U256 - 1)
  {
    assert DecimalString(1) == "1";
    WordArrives(BASE_FIELD - 1);
  }
}
