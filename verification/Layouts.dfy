// The layouts of the contract payloads, and the words that each of them consists of.
module Layouts {
  import opened Prelude
  import opened Bits
  import opened Abi
  import opened AbiBytes
  import opened Hex

  const Pair: Type := FixedArray(Uint256, 2)
  const Words: Type := DynamicArray(Uint256)
  const Proof: Type := Tuple([Pair, FixedArray(Pair, 2), Pair])

  const Anon: seq<Type> := [Proof]
  const Nullifier: seq<Type> := [Uint256, Proof]
  const Enc: seq<Type> := [Uint256, Pair, Words, Proof]
  const EncNullifier: seq<Type> := [Uint256, Uint256, Pair, Words, Proof]
  const EncNullifierNonRepudiation: seq<Type> := [Uint256, Uint256, Pair, Words, Words, Proof]
  const Qurrency: seq<Type> := [Uint256, Uint256, Words, FixedArray(Uint256, 25), Proof]

  /** What a contract should see of a number. Nothing can stand for nil or a negative number. */
  function Number(v: BigInt): Value {
    if v.Some? && v.value >= 0 then Num(v.value) else List([])
  }

  function Numbers(vs: seq<BigInt>): Value {
    List(seq(|vs|, i requires 0 <= i < |vs| => Number(vs[i])))
  }

  /** A proof's eight numbers in the order of the contract. */
  function ProofOf(n: seq<BigInt>): Value
    requires |n| == 8
  {
    List([Numbers(n[..2]), List([Numbers(n[2..4]), Numbers(n[4..6])]), Numbers(n[6..])])
  }

  // ---------------------------------------------------------------------------
  // Words, with a negative one in the place of a number that is missing
  // ---------------------------------------------------------------------------

  function Plain(v: BigInt): int {
    match v
    case None => -1
    case Some(n) => n
  }

  function Plains(vs: seq<BigInt>): (words: seq<int>)
    ensures |words| == |vs|
  {
    seq(|vs|, i requires 0 <= i < |vs| => Plain(vs[i]))
  }

  predicate NonNegative(words: seq<int>) {
    forall k | 0 <= k < |words| :: words[k] >= 0
  }

  lemma NonNegativeConcat(a: seq<int>, b: seq<int>)
    ensures NonNegative(a + b) <==> NonNegative(a) && NonNegative(b)
  {
    if NonNegative(a + b) {
      assert forall k | 0 <= k < |a| :: a[k] == (a + b)[k];
      assert forall k | 0 <= k < |b| :: b[k] == (a + b)[|a| + k];
    }
  }

  /** `v` is a value of type `t` exactly when no word is missing, and then `words` is its encoding. */
  predicate Spells(t: Type, v: Value, words: seq<int>) {
    && (Conforms(t, v) <==> NonNegative(words))
    && (Conforms(t, v) ==> Encode(t, v) == words)
    && (!Dynamic(t) ==> |words| == StaticWords(t))
  }

  /** The same of the components of a value, whose first tail is written at word `at`. */
  predicate Laid(ts: seq<Type>, vs: seq<Value>, at: nat, heads: seq<int>, tails: seq<int>) {
    && |ts| == |vs| && |heads| == HeadWords(ts)
    && (AllConform(ts, vs) <==> NonNegative(heads) && NonNegative(tails))
    && (AllConform(ts, vs) ==> Heads(ts, vs, at) == heads && Tails(ts, vs) == tails)
  }

  lemma ConsParts<T>(t: T, ts: seq<T>)
    ensures ([t] + ts)[0] == t && ([t] + ts)[1..] == ts
  {
  }

  lemma ConsRest<T>(t: T, ts: seq<T>, i: nat)
    requires 0 < i <= |ts|
    ensures ([t] + ts)[i] == ts[i - 1]
  {
  }

  /** The payload of exactly these words, or none when one is missing or too large. */
  function Payload(words: seq<int>): Option<seq<Byte>> {
    if WordsFit(words) then Some(ToBytes(words)) else None
  }

  /** So the words decide whether there is a payload, and are all of it. */
  lemma SpelledBytes(t: Type, v: Value, words: seq<int>)
    requires Spells(t, v, words)
    ensures EncodeBytes(t, v) == Payload(words)
  {
    assert WordsFit(words) ==> NonNegative(words);
  }

  lemma AllConformCons(t: Type, v: Value, ts: seq<Type>, vs: seq<Value>)
    requires |ts| == |vs|
    ensures AllConform([t] + ts, [v] + vs) <==> Conforms(t, v) && AllConform(ts, vs)
  {
    var longer, values := [t] + ts, [v] + vs;
    if AllConform(longer, values) {
      assert Conforms(longer[0], values[0]);
      forall i | 0 <= i < |ts|
        ensures Conforms(ts[i], vs[i])
      {
        ConsRest(t, ts, i + 1);
        ConsRest(v, vs, i + 1);
        assert Conforms(longer[i + 1], values[i + 1]);
      }
    }
    if Conforms(t, v) && AllConform(ts, vs) {
      forall i | 0 <= i < |longer|
        ensures Conforms(longer[i], values[i])
      {
        if i > 0 {
          ConsRest(t, ts, i);
          ConsRest(v, vs, i);
        }
      }
    }
  }

  lemma LaidNone(at: nat)
    ensures Laid([], [], at, [], [])
  {
  }

  lemma LaidStatic(t: Type, v: Value, w: seq<int>, ts: seq<Type>, vs: seq<Value>, at: nat, heads: seq<int>, tails: seq<int>)
    requires Spells(t, v, w) && !Dynamic(t) && Laid(ts, vs, at, heads, tails)
    ensures Laid([t] + ts, [v] + vs, at, w + heads, tails)
  {
    AllConformCons(t, v, ts, vs);
    NonNegativeConcat(w, heads);
    ConsParts(t, ts);
    ConsParts(v, vs);
    if AllConform([t] + ts, [v] + vs) {
      assert Heads([t] + ts, [v] + vs, at) == Encode(t, v) + Heads(ts, vs, at);
      assert Tails([t] + ts, [v] + vs) == [] + Tails(ts, vs) == Tails(ts, vs);
    }
  }

  lemma LaidDynamic(t: Type, v: Value, w: seq<int>, ts: seq<Type>, vs: seq<Value>, at: nat, heads: seq<int>, tails: seq<int>)
    requires Spells(t, v, w) && Dynamic(t) && Laid(ts, vs, at + |w|, heads, tails)
    ensures Laid([t] + ts, [v] + vs, at, [32 * at] + heads, w + tails)
  {
    AllConformCons(t, v, ts, vs);
    NonNegativeConcat([32 * at], heads);
    NonNegativeConcat(w, tails);
    ConsParts(t, ts);
    ConsParts(v, vs);
    if AllConform([t] + ts, [v] + vs) {
      assert Heads([t] + ts, [v] + vs, at) == [32 * at] + Heads(ts, vs, at + |Encode(t, v)|);
      assert Tails([t] + ts, [v] + vs) == Encode(t, v) + Tails(ts, vs);
    }
  }

  lemma SpellsTuple(items: seq<Type>, vs: seq<Value>, heads: seq<int>, tails: seq<int>)
    requires Laid(items, vs, |heads|, heads, tails) && (Dynamic(Tuple(items)) || tails == [])
    ensures Spells(Tuple(items), List(vs), heads + tails)
  {
    NonNegativeConcat(heads, tails);
    assert Conforms(Tuple(items), List(vs)) <==> AllConform(items, vs);
    assert Components(Tuple(items), |vs|) == items;
    assert AllConform(items, vs) ==> Encode(Tuple(items), List(vs)) == EncodeAll(items, vs);
  }

  lemma SpellsFixed(elem: Type, vs: seq<Value>, heads: seq<int>)
    requires !Dynamic(elem) && Laid(Repeat(elem, |vs|), vs, |heads|, heads, [])
    ensures Spells(FixedArray(elem, |vs|), List(vs), heads)
  {
    var t := FixedArray(elem, |vs|);
    RepeatedHeads(elem, |vs|);
    assert Conforms(t, List(vs)) <==> AllConform(Repeat(elem, |vs|), vs);
    assert heads + [] == heads;
    assert AllConform(Repeat(elem, |vs|), vs) ==> Encode(t, List(vs)) == EncodeAll(Repeat(elem, |vs|), vs);
  }

  lemma SpellsDynamic(elem: Type, vs: seq<Value>, heads: seq<int>)
    requires !Dynamic(elem) && Laid(Repeat(elem, |vs|), vs, |heads|, heads, [])
    ensures Spells(DynamicArray(elem), List(vs), [|vs|] + heads)
  {
    var t := DynamicArray(elem);
    NonNegativeConcat([|vs|], heads);
    assert Conforms(t, List(vs)) <==> AllConform(Repeat(elem, |vs|), vs);
    assert heads + [] == heads;
    assert AllConform(Repeat(elem, |vs|), vs) ==> Encode(t, List(vs)) == [|vs|] + EncodeAll(Repeat(elem, |vs|), vs);
  }

  lemma SpellsNumber(v: BigInt)
    ensures Spells(Uint256, Number(v), [Plain(v)])
  {
    assert NonNegative([Plain(v)]) <==> [Plain(v)][0] >= 0;
  }

  lemma {:induction false} NumbersLaid(vs: seq<BigInt>, at: nat)
    ensures Laid(Repeat(Uint256, |vs|), Numbers(vs).items, at, Plains(vs), [])
    decreases |vs|
  {
    if vs == [] {
      LaidNone(at);
    } else {
      NumbersLaid(vs[1..], at);
      SpellsNumber(vs[0]);
      LaidStatic(Uint256, Number(vs[0]), [Plain(vs[0])], Repeat(Uint256, |vs| - 1), Numbers(vs[1..]).items, at,
                 Plains(vs[1..]), []);
      assert Repeat(Uint256, |vs|) == [Uint256] + Repeat(Uint256, |vs| - 1);
      assert Numbers(vs).items == [Number(vs[0])] + Numbers(vs[1..]).items;
      assert Plains(vs) == [Plain(vs[0])] + Plains(vs[1..]);
    }
  }

  /** Arrays of numbers are spelled by the numbers, dynamic ones after their length. */
  lemma SpellsNumbers(vs: seq<BigInt>)
    ensures Spells(FixedArray(Uint256, |vs|), Numbers(vs), Plains(vs))
    ensures Spells(Words, Numbers(vs), [|vs|] + Plains(vs))
  {
    NumbersLaid(vs, |vs|);
    SpellsFixed(Uint256, Numbers(vs).items, Plains(vs));
    SpellsDynamic(Uint256, Numbers(vs).items, Plains(vs));
  }

  lemma NumbersPair(a: BigInt, b: BigInt)
    ensures Numbers([a, b]) == List([Number(a), Number(b)]) && Plains([a, b]) == [Plain(a), Plain(b)]
  {
    assert Numbers([a, b]).items == [Number(a), Number(b)];
  }

  lemma PairSpells(vs: seq<BigInt>)
    requires |vs| == 2
    ensures Spells(Pair, Numbers(vs), Plains(vs)) && !Dynamic(Pair)
  {
    SpellsNumbers(vs);
  }

  /** The two rows of a proof's second part. */
  lemma RowsSpell(a: seq<BigInt>, b: seq<BigInt>)
    requires |a| == 2 && |b| == 2
    ensures Spells(FixedArray(Pair, 2), List([Numbers(a), Numbers(b)]), Plains(a) + Plains(b))
  {
    PairSpells(a);
    PairSpells(b);
    var at := 4;
    LaidNone(at);
    LaidStatic(Pair, Numbers(b), Plains(b), [], [], at, [], []);
    LaidStatic(Pair, Numbers(a), Plains(a), [Pair] + [], [Numbers(b)] + [], at, Plains(b) + [], []);
    assert Repeat(Pair, 2) == [Pair] + ([Pair] + []);
    assert [Numbers(a), Numbers(b)] == [Numbers(a)] + ([Numbers(b)] + []);
    assert Plains(a) + (Plains(b) + []) == Plains(a) + Plains(b);
    SpellsFixed(Pair, [Numbers(a), Numbers(b)], Plains(a) + Plains(b));
  }

  /** A proof is its eight numbers. */
  lemma ProofSpells(n: seq<BigInt>)
    requires |n| == 8
    ensures Spells(Proof, ProofOf(n), Plains(n)) && !Dynamic(Proof)
  {
    var a, b0, b1, c := n[..2], n[2..4], n[4..6], n[6..];
    var rows, at := FixedArray(Pair, 2), 8;
    PairSpells(a);
    PairSpells(c);
    RowsSpell(b0, b1);
    LaidNone(at);
    LaidStatic(Pair, Numbers(c), Plains(c), [], [], at, [], []);
    var rowValue, rowWords := List([Numbers(b0), Numbers(b1)]), Plains(b0) + Plains(b1);
    LaidStatic(rows, rowValue, rowWords, [Pair] + [], [Numbers(c)] + [], at, Plains(c) + [], []);
    LaidStatic(Pair, Numbers(a), Plains(a), [rows] + ([Pair] + []), [rowValue] + ([Numbers(c)] + []), at,
               rowWords + (Plains(c) + []), []);
    assert Proof.items == [Pair] + ([rows] + ([Pair] + []));
    assert ProofOf(n).items == [Numbers(a)] + ([rowValue] + ([Numbers(c)] + []));
    assert Plains(n) == Plains(a) + (rowWords + (Plains(c) + []));
    assert Plains(n) + [] == Plains(n);
    SpellsTuple(Proof.items, ProofOf(n).items, Plains(n), []);
  }

  // ---------------------------------------------------------------------------
  // The six payloads, word by word
  // ---------------------------------------------------------------------------

  function NullifierWords(root: BigInt, proof: seq<BigInt>): seq<int> {
    [Plain(root)] + Plains(proof)
  }

  function EncWords(nonce: BigInt, key: seq<BigInt>, values: seq<BigInt>, proof: seq<BigInt>): seq<int> {
    [Plain(nonce)] + Plains(key) + [0x180] + Plains(proof) + [|values|] + Plains(values)
  }

  function EncNullifierWords(root: BigInt, nonce: BigInt, key: seq<BigInt>, values: seq<BigInt>,
                             proof: seq<BigInt>): seq<int> {
    [Plain(root), Plain(nonce)] + Plains(key) + [0x1a0] + Plains(proof) + [|values|] + Plains(values)
  }

  function NonRepudiationWords(root: BigInt, nonce: BigInt, key: seq<BigInt>, receiver: seq<BigInt>, authority: seq<BigInt>,
                               proof: seq<BigInt>): seq<int> {
    [Plain(root), Plain(nonce)] + Plains(key) + [0x1c0, 0x1c0 + 32 * (1 + |receiver|)] + Plains(proof)
    + [|receiver|] + Plains(receiver) + [|authority|] + Plains(authority)
  }

  function QurrencyWords(root: BigInt, nonce: BigInt, values: seq<BigInt>, secret: seq<BigInt>,
                         proof: seq<BigInt>): seq<int> {
    [Plain(root), Plain(nonce), 0x480] + Plains(secret) + Plains(proof) + [|values|] + Plains(values)
  }

  lemma ProofLaid(proof: seq<BigInt>, at: nat)
    requires |proof| == 8
    ensures Laid([Proof], [ProofOf(proof)], at, Plains(proof), [])
  {
    ProofSpells(proof);
    LaidNone(at);
    LaidStatic(Proof, ProofOf(proof), Plains(proof), [], [], at, [], []);
    assert [Proof] + [] == [Proof] && [ProofOf(proof)] + [] == [ProofOf(proof)] && Plains(proof) + [] == Plains(proof);
  }

  /** An array of numbers, and what follows it in the layout. */
  lemma ValuesLaid(values: seq<BigInt>, ts: seq<Type>, vs: seq<Value>, at: nat, heads: seq<int>, tails: seq<int>)
    requires Laid(ts, vs, at + 1 + |values|, heads, tails)
    ensures Laid([Words] + ts, [Numbers(values)] + vs, at, [32 * at] + heads, [|values|] + Plains(values) + tails)
  {
    SpellsNumbers(values);
    LaidDynamic(Words, Numbers(values), [|values|] + Plains(values), ts, vs, at, heads, tails);
  }

  lemma NumberLaid(v: BigInt, ts: seq<Type>, vs: seq<Value>, at: nat, heads: seq<int>, tails: seq<int>)
    requires Laid(ts, vs, at, heads, tails)
    ensures Laid([Uint256] + ts, [Number(v)] + vs, at, [Plain(v)] + heads, tails)
  {
    SpellsNumber(v);
    LaidStatic(Uint256, Number(v), [Plain(v)], ts, vs, at, heads, tails);
  }

  lemma KeyLaid(key: seq<BigInt>, ts: seq<Type>, vs: seq<Value>, at: nat, heads: seq<int>, tails: seq<int>)
    requires |key| == 2 && Laid(ts, vs, at, heads, tails)
    ensures Laid([Pair] + ts, [Numbers(key)] + vs, at, Plains(key) + heads, tails)
  {
    PairSpells(key);
    LaidStatic(Pair, Numbers(key), Plains(key), ts, vs, at, heads, tails);
  }

  lemma AnonPayload(proof: seq<BigInt>)
    requires |proof| == 8
    ensures EncodeBytes(Tuple(Anon),
                        List([ProofOf(proof)])) ==
            Payload(Plains(proof))
  {
    ProofLaid(proof, 8);
    SpellsTuple(Anon, [ProofOf(proof)], Plains(proof), []);
    assert Plains(proof) + [] == Plains(proof);
    SpelledBytes(Tuple(Anon), List([ProofOf(proof)]),
                 Plains(proof));
  }

  lemma NullifierPayload(root: BigInt, proof: seq<BigInt>)
    requires |proof| == 8
    ensures EncodeBytes(Tuple(Nullifier),
                        List([Number(root), ProofOf(proof)])) ==
            Payload(NullifierWords(root, proof))
  {
    var words := NullifierWords(root, proof);
    ProofLaid(proof, 9);
    NumberLaid(root, [Proof], [ProofOf(proof)], 9, Plains(proof), []);
    assert Nullifier == [Uint256] + [Proof];
    assert [Number(root), ProofOf(proof)] == [Number(root)] + [ProofOf(proof)];
    SpellsTuple(Nullifier, [Number(root), ProofOf(proof)], words, []);
    assert words + [] == words;
    SpelledBytes(Tuple(Nullifier), List([Number(root), ProofOf(proof)]),
                 NullifierWords(root, proof));
  }

  lemma ValuesProofLaid(values: seq<BigInt>, proof: seq<BigInt>, at: nat)
    requires |proof| == 8
    ensures Laid([Words] + [Proof], [Numbers(values)] + [ProofOf(proof)], at,
                 [32 * at] + Plains(proof), [|values|] + Plains(values))
  {
    var tails := [|values|] + Plains(values);
    ProofLaid(proof, at + 1 + |values|);
    ValuesLaid(values, [Proof], [ProofOf(proof)], at, Plains(proof), []);
    assert tails + [] == tails;
  }

  /** Key, values and proof. */
  lemma KeyValuesProofLaid(key: seq<BigInt>, values: seq<BigInt>, proof: seq<BigInt>, at: nat)
    requires |key| == 2 && |proof| == 8
    ensures Laid([Pair, Words, Proof], [Numbers(key), Numbers(values), ProofOf(proof)], at,
                 Plains(key) + ([32 * at] + Plains(proof)), [|values|] + Plains(values))
  {
    ValuesProofLaid(values, proof, at);
    KeyLaid(key, [Words] + [Proof], [Numbers(values)] + [ProofOf(proof)], at, [32 * at] + Plains(proof),
            [|values|] + Plains(values));
    assert [Pair] + ([Words] + [Proof]) == [Pair, Words, Proof];
    assert [Numbers(key)] + ([Numbers(values)] + [ProofOf(proof)]) == [Numbers(key), Numbers(values), ProofOf(proof)];
  }

  lemma EncPayload(nonce: BigInt, key: seq<BigInt>, values: seq<BigInt>, proof: seq<BigInt>)
    requires |key| == 2 && |proof| == 8
    ensures EncodeBytes(Tuple(Enc),
                        List([Number(nonce), Numbers(key), Numbers(values), ProofOf(proof)])) ==
            Payload(EncWords(nonce, key, values, proof))
  {
    var vs := [Numbers(key), Numbers(values), ProofOf(proof)];
    var heads, tails := Plains(key) + ([0x180] + Plains(proof)), [|values|] + Plains(values);
    KeyValuesProofLaid(key, values, proof, 12);
    NumberLaid(nonce, [Pair, Words, Proof], vs, 12, heads, tails);
    assert Enc == [Uint256] + [Pair, Words, Proof];
    assert [Number(nonce)] + vs == [Number(nonce), Numbers(key), Numbers(values), ProofOf(proof)];
    assert Dynamic(Enc[2]);
    SpellsTuple(Enc, [Number(nonce)] + vs, [Plain(nonce)] + heads, tails);
    assert [Plain(nonce)] + heads + tails == EncWords(nonce, key, values, proof);
    SpelledBytes(Tuple(Enc), List([Number(nonce), Numbers(key), Numbers(values), ProofOf(proof)]),
                 EncWords(nonce, key, values, proof));
  }

  lemma RootNonceLaid(root: BigInt, nonce: BigInt, ts: seq<Type>, vs: seq<Value>, at: nat, heads: seq<int>, tails: seq<int>)
    requires Laid(ts, vs, at, heads, tails)
    ensures Laid([Uint256, Uint256] + ts, [Number(root), Number(nonce)] + vs, at, [Plain(root), Plain(nonce)] + heads, tails)
  {
    NumberLaid(nonce, ts, vs, at, heads, tails);
    NumberLaid(root, [Uint256] + ts, [Number(nonce)] + vs, at, [Plain(nonce)] + heads, tails);
    TwoMore(Uint256, Uint256, ts);
    TwoMore(Number(root), Number(nonce), vs);
    TwoMore(Plain(root), Plain(nonce), heads);
  }

  lemma TwoMore<T>(a: T, b: T, rest: seq<T>)
    ensures [a] + ([b] + rest) == [a, b] + rest
  {
  }

  lemma EncNullifierParts(root: BigInt, nonce: BigInt, key: seq<BigInt>, values: seq<BigInt>, proof: seq<BigInt>)
    ensures [Plain(root), Plain(nonce)] + (Plains(key) + ([0x1a0] + Plains(proof))) + ([|values|] + Plains(values))
            == EncNullifierWords(root, nonce, key, values, proof)
  {
  }

  lemma EncNullifierPayload(root: BigInt, nonce: BigInt, key: seq<BigInt>, values: seq<BigInt>, proof: seq<BigInt>)
    requires |key| == 2 && |proof| == 8
    ensures EncodeBytes(Tuple(EncNullifier),
                        List([Number(root), Number(nonce), Numbers(key), Numbers(values), ProofOf(proof)])) ==
            Payload(EncNullifierWords(root, nonce, key, values, proof))
  {
    var ts, vs := [Pair, Words, Proof], [Numbers(key), Numbers(values), ProofOf(proof)];
    var heads, tails := Plains(key) + ([0x1a0] + Plains(proof)), [|values|] + Plains(values);
    KeyValuesProofLaid(key, values, proof, 13);
    RootNonceLaid(root, nonce, ts, vs, 13, heads, tails);
    assert EncNullifier == [Uint256, Uint256] + ts && Dynamic(EncNullifier[3]);
    SpellsTuple(EncNullifier, [Number(root), Number(nonce)] + vs, [Plain(root), Plain(nonce)] + heads, tails);
    assert [Number(root), Number(nonce)] + vs ==
           [Number(root), Number(nonce), Numbers(key), Numbers(values), ProofOf(proof)];
    EncNullifierParts(root, nonce, key, values, proof);
    SpelledBytes(Tuple(EncNullifier), List([Number(root), Number(nonce), Numbers(key), Numbers(values), ProofOf(proof)]),
                 EncNullifierWords(root, nonce, key, values, proof));
  }

  /** Two arrays and proof. */
  lemma TwoValuesProofLaid(receiver: seq<BigInt>, authority: seq<BigInt>, proof: seq<BigInt>, at: nat)
    requires |proof| == 8
    ensures Laid([Words] + ([Words] + [Proof]), [Numbers(receiver)] + ([Numbers(authority)] + [ProofOf(proof)]), at,
                 [32 * at] + ([32 * (at + 1 + |receiver|)] + Plains(proof)),
                 [|receiver|] + Plains(receiver) + ([|authority|] + Plains(authority)))
  {
    var next := at + 1 + |receiver|;
    var tails := [|authority|] + Plains(authority);
    ValuesProofLaid(authority, proof, next);
    var ts, vs, heads := [Words] + [Proof], [Numbers(authority)] + [ProofOf(proof)], [32 * next] + Plains(proof);
    ValuesLaid(receiver, ts, vs, at, heads, tails);
  }

  /** Key, two arrays and proof. */
  lemma KeyTwoValuesProofLaid(key: seq<BigInt>, receiver: seq<BigInt>, authority: seq<BigInt>, proof: seq<BigInt>, at: nat)
    requires |key| == 2 && |proof| == 8
    ensures Laid([Pair, Words, Words, Proof], [Numbers(key), Numbers(receiver), Numbers(authority), ProofOf(proof)], at,
                 Plains(key) + ([32 * at] + ([32 * (at + 1 + |receiver|)] + Plains(proof))),
                 [|receiver|] + Plains(receiver) + ([|authority|] + Plains(authority)))
  {
    TwoValuesProofLaid(receiver, authority, proof, at);
    var ts, vs := [Words] + ([Words] + [Proof]), [Numbers(receiver)] + ([Numbers(authority)] + [ProofOf(proof)]);
    KeyLaid(key, ts, vs, at, [32 * at] + ([32 * (at + 1 + |receiver|)] + Plains(proof)),
            [|receiver|] + Plains(receiver) + ([|authority|] + Plains(authority)));
    assert [Pair] + ts == [Pair, Words, Words, Proof];
    assert [Numbers(key)] + vs == [Numbers(key), Numbers(receiver), Numbers(authority), ProofOf(proof)];
  }

  lemma NonRepudiationParts(root: BigInt, nonce: BigInt, key: seq<BigInt>, receiver: seq<BigInt>, authority: seq<BigInt>,
                            proof: seq<BigInt>)
    ensures [Plain(root), Plain(nonce)] + (Plains(key) + ([0x1c0] + ([0x1c0 + 32 * (1 + |receiver|)] + Plains(proof))))
            + ([|receiver|] + Plains(receiver) + ([|authority|] + Plains(authority)))
            == NonRepudiationWords(root, nonce, key, receiver, authority, proof)
  {
    TwoMore(0x1c0, 0x1c0 + 32 * (1 + |receiver|), Plains(proof));
  }

  lemma NonRepudiationPayload(root: BigInt, nonce: BigInt, key: seq<BigInt>, receiver: seq<BigInt>, authority: seq<BigInt>,
                             proof: seq<BigInt>)
    requires |key| == 2 && |proof| == 8
    ensures EncodeBytes(Tuple(EncNullifierNonRepudiation),
                        List([Number(root), Number(nonce), Numbers(key), Numbers(receiver), Numbers(authority),
                              ProofOf(proof)])) ==
            Payload(NonRepudiationWords(root, nonce, key, receiver, authority, proof))
  {
    var ts, vs := [Pair, Words, Words, Proof], [Numbers(key), Numbers(receiver), Numbers(authority), ProofOf(proof)];
    var heads := Plains(key) + ([0x1c0] + ([0x1c0 + 32 * (1 + |receiver|)] + Plains(proof)));
    var tails := [|receiver|] + Plains(receiver) + ([|authority|] + Plains(authority));
    KeyTwoValuesProofLaid(key, receiver, authority, proof, 14);
    RootNonceLaid(root, nonce, ts, vs, 14, heads, tails);
    assert EncNullifierNonRepudiation == [Uint256, Uint256] + ts && Dynamic(EncNullifierNonRepudiation[3]);
    SpellsTuple(EncNullifierNonRepudiation, [Number(root), Number(nonce)] + vs, [Plain(root), Plain(nonce)] + heads, tails);
    assert [Number(root), Number(nonce)] + vs ==
           [Number(root), Number(nonce), Numbers(key), Numbers(receiver), Numbers(authority), ProofOf(proof)];
    NonRepudiationParts(root, nonce, key, receiver, authority, proof);
    SpelledBytes(Tuple(EncNullifierNonRepudiation),
                 List([Number(root), Number(nonce), Numbers(key), Numbers(receiver), Numbers(authority), ProofOf(proof)]),
                 NonRepudiationWords(root, nonce, key, receiver, authority, proof));
  }

  /** An array, the encapsulated secret and proof. */
  lemma ValuesSecretProofLaid(values: seq<BigInt>, secret: seq<BigInt>, proof: seq<BigInt>, at: nat)
    requires |secret| == 25 && |proof| == 8
    ensures Laid([Words, FixedArray(Uint256, 25), Proof], [Numbers(values), Numbers(secret), ProofOf(proof)], at,
                 [32 * at] + (Plains(secret) + Plains(proof)), [|values|] + Plains(values))
  {
    var fixed, tails, next := FixedArray(Uint256, |secret|), [|values|] + Plains(values), at + 1 + |values|;
    ProofLaid(proof, next);
    SpellsNumbers(secret);
    LaidStatic(fixed, Numbers(secret), Plains(secret), [Proof], [ProofOf(proof)], next, Plains(proof), []);
    ValuesLaid(values, [fixed] + [Proof], [Numbers(secret)] + [ProofOf(proof)], at, Plains(secret) + Plains(proof), []);
    assert tails + [] == tails;
    assert [Words] + ([fixed] + [Proof]) == [Words, fixed, Proof];
    assert [Numbers(values)] + ([Numbers(secret)] + [ProofOf(proof)]) == [Numbers(values), Numbers(secret), ProofOf(proof)];
  }

  lemma QurrencyParts(root: BigInt, nonce: BigInt, values: seq<BigInt>, secret: seq<BigInt>, proof: seq<BigInt>)
    ensures [Plain(root), Plain(nonce)] + ([0x480] + (Plains(secret) + Plains(proof))) + ([|values|] + Plains(values))
            == QurrencyWords(root, nonce, values, secret, proof)
  {
  }

  lemma QurrencyPayload(root: BigInt, nonce: BigInt, values: seq<BigInt>, secret: seq<BigInt>, proof: seq<BigInt>)
    requires |secret| == 25 && |proof| == 8
    ensures EncodeBytes(Tuple(Qurrency),
                        List([Number(root), Number(nonce), Numbers(values), Numbers(secret), ProofOf(proof)])) ==
            Payload(QurrencyWords(root, nonce, values, secret, proof))
  {
    var ts, vs := [Words, FixedArray(Uint256, 25), Proof], [Numbers(values), Numbers(secret), ProofOf(proof)];
    var heads, tails := [0x480] + (Plains(secret) + Plains(proof)), [|values|] + Plains(values);
    ValuesSecretProofLaid(values, secret, proof, 36);
    RootNonceLaid(root, nonce, ts, vs, 36, heads, tails);
    assert Qurrency == [Uint256, Uint256] + ts && Dynamic(Qurrency[2]);
    SpellsTuple(Qurrency, [Number(root), Number(nonce)] + vs, [Plain(root), Plain(nonce)] + heads, tails);
    assert [Number(root), Number(nonce)] + vs ==
           [Number(root), Number(nonce), Numbers(values), Numbers(secret), ProofOf(proof)];
    QurrencyParts(root, nonce, values, secret, proof);
    SpelledBytes(Tuple(Qurrency), List([Number(root), Number(nonce), Numbers(values), Numbers(secret), ProofOf(proof)]),
                 QurrencyWords(root, nonce, values, secret, proof));
  }
}
