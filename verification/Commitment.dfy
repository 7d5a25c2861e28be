// The commitments to a later spend or cancellation of a lock. The hash is a parameter. It
// cannot be assumed injective, since it maps all byte strings to 256-bit words, so what is
// proved is that two different commitments can only coincide through a collision of the
// hash among the few byte strings that were hashed for them.
module Commitment {
  import opened Prelude
  import opened Bits
  import opened Abi
  import opened AbiBytes

  type Word = x: int | 0 <= x < Pow2(8 * WORD_BYTES) witness Smallest()

  function Smallest(): (x: int)
    ensures 0 <= x < Pow2(8 * WORD_BYTES)
  {
    0
  }

  type Hash = seq<Byte> -> Word

  const HashList: seq<Type> := [DynamicArray(Uint256)]
  const FiveWords: seq<Type> := [Uint256, Uint256, Uint256, Uint256, Uint256]

  // The hashes of the UTXOs involved, and the caller's data. An array's length fits a word.
  datatype Unlock = Unlock(lockedInputs: seq<Word>, lockedOutputs: seq<Word>, outputs: seq<Word>, data: seq<Byte>)
  {
    predicate Countable() {
      |lockedInputs| < Pow2(8 * WORD_BYTES) && |lockedOutputs| < Pow2(8 * WORD_BYTES) && |outputs| < Pow2(8 * WORD_BYTES)
    }
  }

  function Nums(words: seq<Word>): (vs: seq<Value>)
    ensures |vs| == |words| && forall i | 0 <= i < |vs| :: vs[i] == Num(words[i])
  {
    seq(|words|, i requires 0 <= i < |words| => Num(words[i]))
  }

  /** Words are their own encoding. */
  lemma {:induction false} WordsEncoded(words: seq<Word>, at: nat)
    ensures AllConform(Repeat(Uint256, |words|), Nums(words))
    ensures Heads(Repeat(Uint256, |words|), Nums(words), at) == words
    ensures Tails(Repeat(Uint256, |words|), Nums(words)) == []
    decreases |words|
  {
    if words != [] {
      assert Repeat(Uint256, |words|)[1..] == Repeat(Uint256, |words| - 1);
      assert Nums(words)[1..] == Nums(words[1..]);
      WordsEncoded(words[1..], at);
      assert words == [words[0]] + words[1..];
    }
  }

  lemma HashListEncodable(hashes: seq<Word>)
    requires |hashes| < Pow2(8 * WORD_BYTES)
    ensures Encodable(Tuple(HashList), List([List(Nums(hashes))]))
    ensures Encode(Tuple(HashList), List([List(Nums(hashes))])) == [32, |hashes|] + hashes
  {
    var v := List(Nums(hashes));
    var inner := DynamicArray(Uint256);
    WordsEncoded(hashes, HeadWords(Repeat(Uint256, |hashes|)));
    assert Encode(inner, v) == [|hashes|] + (hashes + []);
    assert Conforms(Tuple(HashList), List([v]));
    assert HeadWords(HashList) == 1;
    assert Encode(Tuple(HashList), List([v])) == EncodeAll(HashList, [v]);
    assert Heads(HashList, [v], 1) == [32 * 1] + [];
    assert Tails(HashList, [v]) == Encode(inner, v) + [];
    OffsetFits();
  }

  lemma OffsetFits()
    ensures 32 < Pow2(8 * WORD_BYTES)
  {
    var rest := 8 * WORD_BYTES - 6;
    Pow2Sum(rest, 6);
    assert Pow2(6) == 64;
    assert Pow2(rest) * 64 >= 64;
  }

  lemma FiveWordsEncodable(words: seq<Word>)
    requires |words| == 5
    ensures Encodable(Tuple(FiveWords), List(Nums(words)))
    ensures Encode(Tuple(FiveWords), List(Nums(words))) == words
  {
    WordsEncoded(words, HeadWords(Repeat(Uint256, 5)));
    assert Repeat(Uint256, 5) == FiveWords;
    assert Encode(Tuple(FiveWords), List(Nums(words))) == EncodeAll(FiveWords, Nums(words)) == words + [];
  }

  /** `abiCoder.encode(["uint256[]"], [hashes])` */
  function EncodedList(hashes: seq<Word>): seq<Byte>
    requires |hashes| < Pow2(8 * WORD_BYTES)
  {
    HashListEncodable(hashes);
    EncodeBytes(Tuple(HashList), List([List(Nums(hashes))])).value
  }

  /** The encoding of the five words that are hashed last. */
  function Preimage(h: Hash, u: Unlock, domain: Word): seq<Byte>
    requires u.Countable()
  {
    var words := [domain, h(EncodedList(u.lockedInputs)), h(EncodedList(u.lockedOutputs)), h(EncodedList(u.outputs)), h(u.data)];
    FiveWordsEncodable(words);
    EncodeBytes(Tuple(FiveWords), List(Nums(words))).value
  }

  function BuildUnlockHash(h: Hash, u: Unlock, domain: Word): Word
    requires u.Countable()
  {
    h(Preimage(h, u, domain))
  }

  /** An encoded list is an offset, its length and its elements, and nothing else. */
  lemma EncodedListIs(hashes: seq<Word>)
    requires |hashes| < Pow2(8 * WORD_BYTES)
    ensures WordsFit([32, |hashes|] + hashes) && EncodedList(hashes) == ToBytes([32, |hashes|] + hashes)
    ensures |EncodedList(hashes)| == 64 + 32 * |hashes|
    ensures FromBytes(EncodedList(hashes)) == [32, |hashes|] + hashes
  {
    HashListEncodable(hashes);
    WordsRoundTrip([32, |hashes|] + hashes);
  }

  /** What is hashed last is five words. */
  lemma PreimageIs(h: Hash, u: Unlock, domain: Word)
    requires u.Countable()
    ensures var words := [domain, h(EncodedList(u.lockedInputs)), h(EncodedList(u.lockedOutputs)),
                          h(EncodedList(u.outputs)), h(u.data)];
            WordsFit(words) && Preimage(h, u, domain) == ToBytes(words) && FromBytes(Preimage(h, u, domain)) == words
    ensures |Preimage(h, u, domain)| == 160
  {
    var words := [domain, h(EncodedList(u.lockedInputs)), h(EncodedList(u.lockedOutputs)), h(EncodedList(u.outputs)), h(u.data)];
    FiveWordsEncodable(words);
    WordsRoundTrip(words);
  }

  /** A list of hashes is read back from its encoding, in order. */
  lemma EncodedListReads(hashes: seq<Word>)
    requires |hashes| < Pow2(8 * WORD_BYTES)
    ensures DecodeBytes(Tuple(HashList), EncodedList(hashes)) == Some(List([List(Nums(hashes))]))
  {
    HashListEncodable(hashes);
    BytesReadBack(Tuple(HashList), List([List(Nums(hashes))]));
  }

  /** What is hashed last reads as domain, locked inputs, locked outputs, outputs and data, in this order. */
  lemma PreimageReads(h: Hash, u: Unlock, domain: Word)
    requires u.Countable()
    ensures DecodeBytes(Tuple(FiveWords), Preimage(h, u, domain)) ==
            Some(List([Num(domain), Num(h(EncodedList(u.lockedInputs))), Num(h(EncodedList(u.lockedOutputs))),
                       Num(h(EncodedList(u.outputs))), Num(h(u.data))]))
  {
    var words := [domain, h(EncodedList(u.lockedInputs)), h(EncodedList(u.lockedOutputs)), h(EncodedList(u.outputs)), h(u.data)];
    FiveWordsEncodable(words);
    BytesReadBack(Tuple(FiveWords), List(Nums(words)));
    assert Nums(words) == [Num(words[0]), Num(words[1]), Num(words[2]), Num(words[3]), Num(words[4])];
  }

  /** Every byte string that is hashed on the way. */
  function Hashed(h: Hash, u: Unlock, domain: Word): set<seq<Byte>>
    requires u.Countable()
  {
    {EncodedList(u.lockedInputs), EncodedList(u.lockedOutputs), EncodedList(u.outputs), u.data, Preimage(h, u, domain)}
  }

  predicate CollisionFree(h: Hash, strings: set<seq<Byte>>) {
    forall a, b | a in strings && b in strings && h(a) == h(b) :: a == b
  }

  lemma EncodedListInjective(a: seq<Word>, b: seq<Word>)
    requires |a| < Pow2(8 * WORD_BYTES) && |b| < Pow2(8 * WORD_BYTES)
    requires EncodedList(a) == EncodedList(b)
    ensures a == b
  {
    HashListEncodable(a);
    HashListEncodable(b);
    BytesInjective(Tuple(HashList), List([List(Nums(a))]), List([List(Nums(b))]));
    assert Nums(a) == Nums(b);
    forall i | 0 <= i < |a|
      ensures a[i] == b[i]
    {
      assert Nums(a)[i] == Num(a[i]) && Nums(b)[i] == Num(b[i]);
    }
  }

  lemma PreimageInjective(h: Hash, u: Unlock, domain: Word, u': Unlock, domain': Word)
    requires u.Countable() && u'.Countable()
    requires Preimage(h, u, domain) == Preimage(h, u', domain')
    ensures domain == domain' && h(u.data) == h(u'.data)
    ensures h(EncodedList(u.lockedInputs)) == h(EncodedList(u'.lockedInputs))
    ensures h(EncodedList(u.lockedOutputs)) == h(EncodedList(u'.lockedOutputs))
    ensures h(EncodedList(u.outputs)) == h(EncodedList(u'.outputs))
  {
    var a := [domain, h(EncodedList(u.lockedInputs)), h(EncodedList(u.lockedOutputs)), h(EncodedList(u.outputs)), h(u.data)];
    var b := [domain', h(EncodedList(u'.lockedInputs)), h(EncodedList(u'.lockedOutputs)), h(EncodedList(u'.outputs)), h(u'.data)];
    FiveWordsEncodable(a);
    FiveWordsEncodable(b);
    BytesInjective(Tuple(FiveWords), List(Nums(a)), List(Nums(b)));
    forall i | 0 <= i < 5
      ensures a[i] == b[i]
    {
      assert Nums(a)[i] == Num(a[i]) && Nums(b)[i] == Num(b[i]);
    }
    assert a[0] == b[0] && a[1] == b[1] && a[2] == b[2] && a[3] == b[3] && a[4] == b[4];
  }

  /** Unless the hash collides on the strings hashed for them, equal commitments commit to the same
      domain, arrays of the same lengths and contents, and data. */
  lemma CommitmentBinds(h: Hash, u: Unlock, domain: Word, u': Unlock, domain': Word)
    requires u.Countable() && u'.Countable()
    requires CollisionFree(h, Hashed(h, u, domain) + Hashed(h, u', domain'))
    ensures BuildUnlockHash(h, u, domain) == BuildUnlockHash(h, u', domain') <==> u == u' && domain == domain'
  {
    if BuildUnlockHash(h, u, domain) == BuildUnlockHash(h, u', domain') {
      PreimageInjective(h, u, domain, u', domain');
      EncodedListInjective(u.lockedInputs, u'.lockedInputs);
      EncodedListInjective(u.lockedOutputs, u'.lockedOutputs);
      EncodedListInjective(u.outputs, u'.outputs);
    }
  }

  // ---------------------------------------------------------------------------
  // Spending and cancelling
  // ---------------------------------------------------------------------------

  /** `toUtf8Bytes` on the ASCII characters of a tag. */
  function Utf8(tag: string): (bytes: seq<Byte>)
    requires forall i | 0 <= i < |tag| :: tag[i] as int < 128
  {
    seq(|tag|, i requires 0 <= i < |tag| => tag[i] as int)
  }

  function SpendTag(): (tag: seq<Byte>)
    ensures |tag| == 23
  {
    Utf8("Zeto.spendCommitment.v1")
  }

  function CancelTag(): (tag: seq<Byte>)
    ensures |tag| == 24
  {
    Utf8("Zeto.cancelCommitment.v1")
  }

  function SpendHash(h: Hash, u: Unlock): Word
    requires u.Countable()
  {
    BuildUnlockHash(h, u, h(SpendTag()))
  }

  function CancelHash(h: Hash, u: Unlock): Word
    requires u.Countable()
  {
    BuildUnlockHash(h, u, h(CancelTag()))
  }

  /** A spend commitment never doubles as a cancel commitment, not even for the same lock. */
  lemma SpendAndCancelApart(h: Hash, u: Unlock, u': Unlock)
    requires u.Countable() && u'.Countable()
    requires CollisionFree(h, {SpendTag(), CancelTag()} + (Hashed(h, u, h(SpendTag())) + Hashed(h, u', h(CancelTag()))))
    ensures SpendHash(h, u) != CancelHash(h, u')
  {
    CommitmentBinds(h, u, h(SpendTag()), u', h(CancelTag()));
    assert |SpendTag()| != |CancelTag()|;
  }

  /** The tags' bytes, written out. */
  lemma TagBytes()
    ensures SpendTag() == [0x5a, 0x65, 0x74, 0x6f, 0x2e, 0x73, 0x70, 0x65, 0x6e, 0x64, 0x43, 0x6f, 0x6d, 0x6d, 0x69, 0x74,
                           0x6d, 0x65, 0x6e, 0x74, 0x2e, 0x76, 0x31]
    ensures CancelTag() == [0x5a, 0x65, 0x74, 0x6f, 0x2e, 0x63, 0x61, 0x6e, 0x63, 0x65, 0x6c, 0x43, 0x6f, 0x6d, 0x6d, 0x69,
                            0x74, 0x6d, 0x65, 0x6e, 0x74, 0x2e, 0x76, 0x31]
  {
  }

  /** Five words: a tag's hash, those of the three lists and that of the data. */
  predicate HashOfFive(h: Hash, commitment: Word, tag: seq<Byte>, u: Unlock)
    requires u.Countable()
  {
    var words := [h(tag), h(EncodedList(u.lockedInputs)), h(EncodedList(u.lockedOutputs)), h(EncodedList(u.outputs)), h(u.data)];
    WordsFit(words) && commitment == h(ToBytes(words))
  }

  /** Each commitment is the hash of five words, the first of which is the hash of its own tag. */
  lemma CommitmentsAre(h: Hash, u: Unlock)
    requires u.Countable()
    ensures HashOfFive(h, SpendHash(h, u), SpendTag(), u)
    ensures HashOfFive(h, CancelHash(h, u), CancelTag(), u)
  {
    PreimageIs(h, u, h(SpendTag()));
    PreimageIs(h, u, h(CancelTag()));
  }
}
