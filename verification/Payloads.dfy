// The six contract payloads of the Go SDK: the conversion of a proof, the layouts, and
// what a contract reads back from them.
module Payloads {
  import opened Prelude
  import opened Bits
  import opened Abi
  import opened AbiBytes
  import opened Hex
  import opened Layouts

  // A proof as the prover writes it, in decimal texts.
  datatype ProofData = ProofData(a: seq<string>, b: seq<seq<string>>, c: seq<string>)

  // The same in hexadecimal texts, for the contract.
  datatype EncodedProof = EncodedProof(pA: seq<string>, pB: seq<seq<string>>, pC: seq<string>)

  datatype PayloadError = NilProof | NotEncodable

  // `SetString(val, 10)`: nil for a text that is no number.
  type Parser = string -> BigInt

  /** The original indexes these unconditionally. */
  predicate Indexable(proof: ProofData) {
    && |proof.a| >= 2 && |proof.b| >= 2 && |proof.c| >= 2
    && |proof.b[0]| >= 2 && |proof.b[1]| >= 2
  }

  /** Both rows of `b` are swapped for the contract, nothing else moves. */
  function Converted(parse: Parser, p: ProofData): EncodedProof
    requires Indexable(p)
  {
    EncodedProof([HexText(parse(p.a[0])), HexText(parse(p.a[1]))],
                 [[HexText(parse(p.b[0][1])), HexText(parse(p.b[0][0]))],
                  [HexText(parse(p.b[1][1])), HexText(parse(p.b[1][0]))]],
                 [HexText(parse(p.c[0])), HexText(parse(p.c[1]))])
  }

  /** The loop that parses two decimal texts. */
  method ParseTwo(parse: Parser, texts: seq<string>) returns (numbers: seq<BigInt>)
    requires |texts| >= 2
    ensures numbers == [parse(texts[0]), parse(texts[1])]
  {
    var slots := new BigInt[2];
    for i := 0 to 2
      invariant forall k | 0 <= k < i :: slots[k] == parse(texts[k])
    {
      slots[i] := parse(texts[i]);
    }
    numbers := slots[..];
  }

  method ConvertProof(parse: Parser, proof: Option<ProofData>) returns (r: Result<EncodedProof, PayloadError>)
    requires proof.Some? ==> Indexable(proof.value)
    ensures r == if proof.None? then Err(NilProof) else Ok(Converted(parse, proof.value))
  {
    if proof.None? {
      return Err(NilProof);
    }
    var p := proof.value;
    var pA := ParseTwo(parse, p.a);
    var pB := new seq<BigInt>[2];
    for i := 0 to 2
      invariant forall k | 0 <= k < i :: pB[k] == [parse(p.b[k][0]), parse(p.b[k][1])]
    {
      var row := ParseTwo(parse, p.b[i]);
      pB[i] := row;
    }
    var pC := ParseTwo(parse, p.c);
    r := Ok(EncodedProof([HexText(pA[0]), HexText(pA[1])],
                         [[HexText(pB[0][1]), HexText(pB[0][0])], [HexText(pB[1][1]), HexText(pB[1][0])]],
                         [HexText(pC[0]), HexText(pC[1])]));
  }

  /** The closures that turn an array of numbers into an array of texts. */
  method HexValues(numbers: seq<BigInt>) returns (values: seq<string>)
    ensures |values| == |numbers| && forall i | 0 <= i < |numbers| :: values[i] == HexText(numbers[i])
  {
    var slots := new string[|numbers|];
    for i := 0 to |numbers|
      invariant forall k | 0 <= k < i :: slots[k] == HexText(numbers[k])
    {
      slots[i] := HexText(numbers[i]);
    }
    values := slots[..];
  }

  // ---------------------------------------------------------------------------
  // Values
  // ---------------------------------------------------------------------------

  /** What the ABI encoder reads from a text: a number, or something that is none. */
  function Read(t: string): Value {
    match ReadHex(t)
    case None => List([])
    case Some(n) => Num(n)
  }

  function ReadAll(ts: seq<string>): Value {
    List(seq(|ts|, i requires 0 <= i < |ts| => Read(ts[i])))
  }

  function ReadProof(p: EncodedProof): Value {
    List([ReadAll(p.pA), List(seq(|p.pB|, i requires 0 <= i < |p.pB| => ReadAll(p.pB[i]))), ReadAll(p.pC)])
  }

  lemma NumberReads(v: BigInt)
    ensures Read(HexText(v)) == Number(v)
  {
    HexTextReads(v);
  }

  /** The numbers of a proof as a contract should see them: every row of `b` swapped, nothing else moved. */
  function ProofNumbers(parse: Parser, p: ProofData): (numbers: seq<BigInt>)
    requires Indexable(p)
    ensures |numbers| == 8
  {
    [parse(p.a[0]), parse(p.a[1]),
     parse(p.b[0][1]), parse(p.b[0][0]), parse(p.b[1][1]), parse(p.b[1][0]),
     parse(p.c[0]), parse(p.c[1])]
  }

  function ProofValue(parse: Parser, p: ProofData): Value
    requires Indexable(p)
  {
    ProofOf(ProofNumbers(parse, p))
  }

  lemma ReadTwo(x: BigInt, y: BigInt)
    ensures ReadAll([HexText(x), HexText(y)]) == Numbers([x, y])
  {
    NumberReads(x);
    NumberReads(y);
    assert ReadAll([HexText(x), HexText(y)]).items == Numbers([x, y]).items;
  }

  lemma ReadProofIsProofValue(parse: Parser, p: ProofData)
    requires Indexable(p)
    ensures ReadProof(Converted(parse, p)) == ProofValue(parse, p)
  {
    var e := Converted(parse, p);
    ReadTwo(parse(p.a[0]), parse(p.a[1]));
    ReadTwo(parse(p.b[0][1]), parse(p.b[0][0]));
    ReadTwo(parse(p.b[1][1]), parse(p.b[1][0]));
    ReadTwo(parse(p.c[0]), parse(p.c[1]));
    var n := ProofNumbers(parse, p);
    assert n[..2] == [n[0], n[1]] && n[2..4] == [n[2], n[3]] && n[4..6] == [n[4], n[5]] && n[6..] == [n[6], n[7]];
    assert ReadProof(e).items[1].items == [ReadAll(e.pB[0]), ReadAll(e.pB[1])];
  }

  /** A payload consists of exactly these words; one is refused when a word is missing or does not fit. */
  predicate Consists(r: Result<seq<Byte>, PayloadError>, words: seq<int>) {
    match Payload(words)
    case None => r == Err(NotEncodable)
    case Some(payload) => r == Ok(payload)
  }

  lemma ReadAllHex(numbers: seq<BigInt>, texts: seq<string>)
    requires |texts| == |numbers| && forall i | 0 <= i < |numbers| :: texts[i] == HexText(numbers[i])
    ensures ReadAll(texts) == Numbers(numbers)
  {
    forall i | 0 <= i < |numbers|
      ensures ReadAll(texts).items[i] == Numbers(numbers).items[i]
    {
      NumberReads(numbers[i]);
    }
    assert ReadAll(texts).items == Numbers(numbers).items;
  }

  /** An array of numbers on its way through its texts. */
  method HexList(numbers: seq<BigInt>) returns (v: Value)
    ensures v == Numbers(numbers)
  {
    var texts := HexValues(numbers);
    ReadAllHex(numbers, texts);
    v := ReadAll(texts);
  }

  /** A pair of numbers, written out without a loop. */
  method HexPair(numbers: seq<BigInt>) returns (v: Value)
    requires |numbers| == 2
    ensures v == Numbers(numbers)
  {
    v := ReadAll([HexText(numbers[0]), HexText(numbers[1])]);
    ReadAllHex(numbers, [HexText(numbers[0]), HexText(numbers[1])]);
  }

  /** A payload is good when a contract that decodes it by the layout sees exactly `items`. */
  predicate Delivers(r: Result<seq<Byte>, PayloadError>, layout: seq<Type>, items: seq<Value>) {
    match r
    case Ok(payload) => Encodable(Tuple(layout), List(items)) && DecodeBytes(Tuple(layout), payload) == Some(List(items))
    case Err(e) => e == NotEncodable && !Encodable(Tuple(layout), List(items))
  }

  method EncodeABI(layout: seq<Type>, items: seq<Value>) returns (r: Result<seq<Byte>, PayloadError>)
    ensures Delivers(r, layout, items)
    ensures r == match EncodeBytes(Tuple(layout), List(items))
                 case None => Err(NotEncodable)
                 case Some(payload) => Ok(payload)
  {
    match EncodeBytes(Tuple(layout), List(items)) {
      case None => r := Err(NotEncodable);
      case Some(payload) =>
        BytesReadBack(Tuple(layout), List(items));
        r := Ok(payload);
    }
  }

  method EncodeAnon(parse: Parser, proof: Option<ProofData>) returns (r: Result<seq<Byte>, PayloadError>)
    requires proof.Some? ==> Indexable(proof.value)
    ensures proof.None? ==> r == Err(NilProof)
    ensures proof.Some? ==> Delivers(r, Anon, [ProofValue(parse, proof.value)])
    ensures proof.Some? ==> Consists(r, Plains(ProofNumbers(parse, proof.value)))
    ensures r.Ok? ==> |r.value| == 256
  {
    var proofStruct := ConvertProof(parse, proof);
    match proofStruct {
      case Err(e) => r := Err(e);
      case Ok(p) =>
        AnonPayload(ProofNumbers(parse, proof.value));
        ReadProofIsProofValue(parse, proof.value);
        r := EncodeABI(Anon, [ReadProof(p)]);
    }
  }

  method EncodeNullifier(parse: Parser, root: BigInt, proof: Option<ProofData>) returns (r: Result<seq<Byte>, PayloadError>)
    requires proof.Some? ==> Indexable(proof.value)
    ensures proof.None? ==> r == Err(NilProof)
    ensures proof.Some? ==> Delivers(r, Nullifier, [Number(root), ProofValue(parse, proof.value)])
    ensures proof.Some? ==> Consists(r, NullifierWords(root, ProofNumbers(parse, proof.value)))
    ensures r.Ok? ==> |r.value| == 288
  {
    var proofStruct := ConvertProof(parse, proof);
    match proofStruct {
      case Err(e) => r := Err(e);
      case Ok(p) =>
        NullifierPayload(root, ProofNumbers(parse, proof.value));
        ReadProofIsProofValue(parse, proof.value);
        NumberReads(root);
        r := EncodeABI(Nullifier, [Read(HexText(root)), ReadProof(p)]);
    }
  }

  method EncodeEnc(parse: Parser, encryptionNonce: BigInt, ecdhPublicKey: seq<BigInt>, encryptedValues: seq<BigInt>,
                   proof: Option<ProofData>) returns (r: Result<seq<Byte>, PayloadError>)
    requires |ecdhPublicKey| == 2 && (proof.Some? ==> Indexable(proof.value))
    ensures proof.None? ==> r == Err(NilProof)
    ensures proof.Some? ==>
              Delivers(r, Enc, [Number(encryptionNonce), Numbers(ecdhPublicKey), Numbers(encryptedValues),
                                ProofValue(parse, proof.value)])
    ensures proof.Some? ==>
              Consists(r, EncWords(encryptionNonce, ecdhPublicKey, encryptedValues, ProofNumbers(parse, proof.value)))
    ensures r.Ok? ==> |r.value| == 32 * (13 + |encryptedValues|)
  {
    var proofStruct := ConvertProof(parse, proof);
    match proofStruct {
      case Err(e) => r := Err(e);
      case Ok(p) =>
        EncPayload(encryptionNonce, ecdhPublicKey, encryptedValues, ProofNumbers(parse, proof.value));
        ReadProofIsProofValue(parse, proof.value);
        NumberReads(encryptionNonce);
        var key := HexPair(ecdhPublicKey);
        var values := HexList(encryptedValues);
        r := EncodeABI(Enc, [Read(HexText(encryptionNonce)), key, values, ReadProof(p)]);
    }
  }

  method EncodeEncNullifier(parse: Parser, root: BigInt, encryptionNonce: BigInt, ecdhPublicKey: seq<BigInt>,
                            encryptedValues: seq<BigInt>, proof: Option<ProofData>)
      returns (r: Result<seq<Byte>, PayloadError>)
    requires |ecdhPublicKey| == 2 && (proof.Some? ==> Indexable(proof.value))
    ensures proof.None? ==> r == Err(NilProof)
    ensures proof.Some? ==>
              Delivers(r, EncNullifier, [Number(root), Number(encryptionNonce), Numbers(ecdhPublicKey),
                                         Numbers(encryptedValues), ProofValue(parse, proof.value)])
    ensures proof.Some? ==>
              Consists(r, EncNullifierWords(root, encryptionNonce, ecdhPublicKey, encryptedValues,
                                            ProofNumbers(parse, proof.value)))
    ensures r.Ok? ==> |r.value| == 32 * (14 + |encryptedValues|)
  {
    var proofStruct := ConvertProof(parse, proof);
    match proofStruct {
      case Err(e) => r := Err(e);
      case Ok(p) =>
        EncNullifierPayload(root, encryptionNonce, ecdhPublicKey, encryptedValues, ProofNumbers(parse, proof.value));
        ReadProofIsProofValue(parse, proof.value);
        NumberReads(root);
        NumberReads(encryptionNonce);
        var key := HexPair(ecdhPublicKey);
        var values := HexList(encryptedValues);
        r := EncodeABI(EncNullifier, [Read(HexText(root)), Read(HexText(encryptionNonce)), key, values, ReadProof(p)]);
    }
  }

  method EncodeEncNullifierNonRepudiation(parse: Parser, root: BigInt, encryptionNonce: BigInt, ecdhPublicKey: seq<BigInt>,
                                          forReceiver: seq<BigInt>, forAuthority: seq<BigInt>, proof: Option<ProofData>)
      returns (r: Result<seq<Byte>, PayloadError>)
    requires |ecdhPublicKey| == 2 && (proof.Some? ==> Indexable(proof.value))
    ensures proof.None? ==> r == Err(NilProof)
    ensures proof.Some? ==>
              Delivers(r, EncNullifierNonRepudiation,
                       [Number(root), Number(encryptionNonce), Numbers(ecdhPublicKey), Numbers(forReceiver),
                        Numbers(forAuthority), ProofValue(parse, proof.value)])
    ensures proof.Some? ==>
              Consists(r, NonRepudiationWords(root, encryptionNonce, ecdhPublicKey, forReceiver, forAuthority,
                                              ProofNumbers(parse, proof.value)))
    ensures r.Ok? ==> |r.value| == 32 * (16 + |forReceiver| + |forAuthority|)
  {
    var proofStruct := ConvertProof(parse, proof);
    match proofStruct {
      case Err(e) => r := Err(e);
      case Ok(p) =>
        NonRepudiationPayload(root, encryptionNonce, ecdhPublicKey, forReceiver, forAuthority,
                              ProofNumbers(parse, proof.value));
        ReadProofIsProofValue(parse, proof.value);
        NumberReads(root);
        NumberReads(encryptionNonce);
        var key := HexPair(ecdhPublicKey);
        var receiver := HexList(forReceiver);
        var authority := HexList(forAuthority);
        r := EncodeABI(EncNullifierNonRepudiation,
                       [Read(HexText(root)), Read(HexText(encryptionNonce)), key, receiver, authority, ReadProof(p)]);
    }
  }

  method EncodeQurrency(parse: Parser, root: BigInt, encryptionNonce: BigInt, encryptedValues: seq<BigInt>,
                        encapsulatedSharedSecret: seq<BigInt>, proof: Option<ProofData>)
      returns (r: Result<seq<Byte>, PayloadError>)
    requires |encapsulatedSharedSecret| == 25 && (proof.Some? ==> Indexable(proof.value))
    ensures proof.None? ==> r == Err(NilProof)
    ensures proof.Some? ==>
              Delivers(r, Qurrency, [Number(root), Number(encryptionNonce), Numbers(encryptedValues),
                                     Numbers(encapsulatedSharedSecret), ProofValue(parse, proof.value)])
    ensures proof.Some? ==>
              Consists(r, QurrencyWords(root, encryptionNonce, encryptedValues, encapsulatedSharedSecret,
                                        ProofNumbers(parse, proof.value)))
    ensures r.Ok? ==> |r.value| == 32 * (37 + |encryptedValues|)
  {
    var proofStruct := ConvertProof(parse, proof);
    match proofStruct {
      case Err(e) => r := Err(e);
      case Ok(p) =>
        QurrencyPayload(root, encryptionNonce, encryptedValues, encapsulatedSharedSecret, ProofNumbers(parse, proof.value));
        ReadProofIsProofValue(parse, proof.value);
        NumberReads(root);
        NumberReads(encryptionNonce);
        var values := HexList(encryptedValues);
        var secret := HexList(encapsulatedSharedSecret);
        r := EncodeABI(Qurrency, [Read(HexText(root)), Read(HexText(encryptionNonce)), values, secret, ReadProof(p)]);
    }
  }

  // ---------------------------------------------------------------------------
  // Head sizes
  // ---------------------------------------------------------------------------

  lemma {:induction false} UintArrayWords(n: nat)
    ensures RepeatedWords(Uint256, n) == n
  {
    if n > 0 {
      UintArrayWords(n - 1);
    }
  }

  lemma HeadWordsCons(t: Type, ts: seq<Type>)
    ensures HeadWords([t] + ts) == HeadSize(t) + HeadWords(ts)
  {
    assert ([t] + ts)[1..] == ts;
  }

  lemma ComponentSizes()
    ensures HeadSize(Uint256) == 1 && HeadSize(Pair) == 2 && HeadSize(FixedArray(Uint256, 25)) == 25
    ensures HeadSize(Words) == 1 && Dynamic(Words)
    ensures HeadSize(Proof) == 8 && !Dynamic(Proof)
  {
    UintArrayWords(2);
    UintArrayWords(25);
    var two := 2;
    assert RepeatedWords(Pair, two) == HeadSize(Pair) + RepeatedWords(Pair, two - 1);
    assert RepeatedWords(Pair, two - 1) == HeadSize(Pair) + RepeatedWords(Pair, two - 2);
    assert HeadSize(FixedArray(Pair, 2)) == 4;
    assert Proof.items == [Pair] + ([FixedArray(Pair, 2)] + ([Pair] + []));
    HeadWordsCons(Pair, [FixedArray(Pair, 2)] + ([Pair] + []));
    HeadWordsCons(FixedArray(Pair, 2), [Pair] + []);
    HeadWordsCons(Pair, []);
  }

  lemma HeadSizes()
    ensures HeadWords(Enc) == 12 && HeadWords(EncNullifier) == 13
    ensures HeadWords(EncNullifierNonRepudiation) == 14 && HeadWords(Qurrency) == 36
  {
    ComponentSizes();
    var one := [Words] + [Proof];
    var two := [Words] + one;
    var secret := [FixedArray(Uint256, 25)] + [Proof];
    HeadWordsCons(Proof, []);
    assert [Proof] + [] == [Proof];
    HeadWordsCons(Words, [Proof]);
    HeadWordsCons(Words, one);
    HeadWordsCons(FixedArray(Uint256, 25), [Proof]);
    HeadWordsCons(Words, secret);
    HeadWordsCons(Pair, one);
    HeadWordsCons(Pair, two);
    HeadWordsCons(Uint256, [Pair] + one);
    assert Enc == [Uint256] + ([Pair] + one);
    HeadWordsCons(Uint256, Enc);
    assert EncNullifier == [Uint256] + Enc;
    HeadWordsCons(Uint256, [Pair] + two);
    HeadWordsCons(Uint256, [Uint256] + ([Pair] + two));
    assert EncNullifierNonRepudiation == [Uint256] + ([Uint256] + ([Pair] + two));
    HeadWordsCons(Uint256, [Words] + secret);
    HeadWordsCons(Uint256, [Uint256] + ([Words] + secret));
    assert Qurrency == [Uint256] + ([Uint256] + ([Words] + secret));
  }

  /** The first offset of a payload: it stands `prefix` words in and gives the head's size in bytes. */
  predicate FirstOffsetIs(layout: seq<Type>, v: Value, prefix: nat, bytes: nat)
    requires Encodable(Tuple(layout), v)
  {
    var words := FromBytes(EncodeBytes(Tuple(layout), v).value);
    prefix < |words| && words[prefix] == bytes
  }

  lemma PrefixSizes()
    ensures HeadWords(Enc[..2]) == 3 && HeadWords(EncNullifier[..3]) == 4
    ensures HeadWords(EncNullifierNonRepudiation[..3]) == 4 && HeadWords(Qurrency[..2]) == 2
  {
    ComponentSizes();
    HeadWordsCons(Pair, []);
    HeadWordsCons(Uint256, []);
    HeadWordsCons(Uint256, [Pair] + []);
    HeadWordsCons(Uint256, [Uint256] + ([Pair] + []));
    HeadWordsCons(Uint256, [Uint256] + []);
    assert Enc[..2] == [Uint256] + ([Pair] + []);
    assert EncNullifier[..3] == EncNullifierNonRepudiation[..3] == [Uint256] + ([Uint256] + ([Pair] + []));
    assert Qurrency[..2] == [Uint256] + ([Uint256] + []);
  }

  /** Whatever the arrays' lengths, the first offset of every payload with an array is a constant. */
  lemma EncOffset(v: Value)
    requires Encodable(Tuple(Enc), v)
    ensures FirstOffsetIs(Enc, v, 3, 0x180)
  {
    HeadSizes();
    PrefixSizes();
    FirstOffsetWord(Enc, v, 2);
  }

  lemma EncNullifierOffset(v: Value)
    requires Encodable(Tuple(EncNullifier), v)
    ensures FirstOffsetIs(EncNullifier, v, 4, 0x1a0)
  {
    HeadSizes();
    PrefixSizes();
    FirstOffsetWord(EncNullifier, v, 3);
  }

  lemma NonRepudiationOffset(v: Value)
    requires Encodable(Tuple(EncNullifierNonRepudiation), v)
    ensures FirstOffsetIs(EncNullifierNonRepudiation, v, 4, 0x1c0)
  {
    HeadSizes();
    PrefixSizes();
    FirstOffsetWord(EncNullifierNonRepudiation, v, 3);
  }

  lemma QurrencyOffset(v: Value)
    requires Encodable(Tuple(Qurrency), v)
    ensures FirstOffsetIs(Qurrency, v, 2, 0x480)
  {
    HeadSizes();
    PrefixSizes();
    FirstOffsetWord(Qurrency, v, 2);
  }
}
