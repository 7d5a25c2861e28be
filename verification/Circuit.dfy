// The constraints of the circom template SymmetricEncrypt, as a relation between signals.
// Nothing is computed here: a ciphertext is right when some bits and some round results
// satisfy every equation.
module Circuit {
  import opened Prelude
  import opened Field
  import opened Sponge
  import Bits
  import JsCipher

  type Hash = JsCipher.Hash

  // ---------------------------------------------------------------------------
  // The range check of the nonce
  // ---------------------------------------------------------------------------

  const COMPARED_BITS: nat := 252
  const TWO_252: int := 0x1000000000000000000000000000000000000000000000000000000000000000

  /** The nonces just below the modulus that wrap around the comparator's offset. */
  const FIRST_WRAPPED: int := MODULUS - (TWO_252 - TWO_128)

  /** circomlib's `LessThan(252)(in <== [a, b]) === 1`: the 253 bits of `a + 2^252 - b` in the field, the top one
      being zero. The subtraction is modulo the field, so nothing here says that `a` is small. */
  predicate LessThanHolds(a: int, b: int, bits: seq<int>) {
    && |bits| == COMPARED_BITS + 1 && Bits.AreBits(bits)
    && Bits.BitValue(bits) % MODULUS == (a + TWO_252 - b) % MODULUS
    && (1 - bits[COMPARED_BITS]) % MODULUS == 1
  }

  lemma ComparedPower()
    ensures Bits.Pow2(COMPARED_BITS) == TWO_252
  {
    assert Bits.Pow2(7) == 128;
    Squared(7, 128);
    Squared(14, 0x4000);
    Squared(28, 0x1000_0000);
    Bits.Pow2Sum(56, 7);
    Squared(63, 0x8000_0000_0000_0000);
    Squared(126, 0x4000_0000_0000_0000_0000_0000_0000_0000);
  }

  /** Bits below a zero top bit spell the numbers below 2^252, and all of those. */
  lemma TopBitZero(bits: seq<int>)
    requires |bits| == COMPARED_BITS + 1 && Bits.AreBits(bits)
    ensures 0 <= Bits.BitValue(bits) < 2 * TWO_252
    ensures bits[COMPARED_BITS] == 0 <==> Bits.BitValue(bits) < TWO_252
  {
    var low, top := bits[..COMPARED_BITS], bits[COMPARED_BITS];
    assert bits == low + [top];
    Bits.BitValueAppend(low, [top]);
    Bits.BitValueBound(low);
    ComparedPower();
    assert Bits.BitValue([top]) == top;
  }

  lemma BitsBelow(v: nat) returns (bits: seq<int>)
    requires v < TWO_252
    ensures |bits| == COMPARED_BITS + 1 && Bits.AreBits(bits) && Bits.BitValue(bits) == v
  {
    ComparedPower();
    var low := Bits.BitsOf(v, COMPARED_BITS);
    Bits.ValueOfBits(v, COMPARED_BITS);
    bits := low + [0];
    Bits.BitValueAppend(low, [0]);
    assert Bits.BitValue([0]) == 0;
  }

  /** Exactly which field elements pass the range check: those below 2^128, and those that wrap around. */
  lemma NoncePasses(nonce: Element)
    ensures (exists bits :: LessThanHolds(nonce, TWO_128, bits)) <==> nonce < TWO_128 || nonce >= FIRST_WRAPPED
  {
    var v := (nonce + TWO_252 - TWO_128) % MODULUS;
    assert v == if nonce < FIRST_WRAPPED then nonce + TWO_252 - TWO_128 else nonce - FIRST_WRAPPED;
    if bits :| LessThanHolds(nonce, TWO_128, bits) {
      TopBitZero(bits);
    }
    if v < TWO_252 {
      var bits := BitsBelow(v);
      TopBitZero(bits);
      assert LessThanHolds(nonce, TWO_128, bits);
    }
  }

  // ---------------------------------------------------------------------------
  // The sponge
  // ---------------------------------------------------------------------------

  /** The equations of round `i`: three ciphertext signals and the next round result. */
  predicate RoundHolds(h: Hash, messages: seq<int>, cipherText: seq<int>, rounds: seq<Quad>, i: nat)
    requires |cipherText| == |messages| + 1 && |rounds| == |messages| / 3 + 1 && i < |messages| / 3
  {
    && cipherText[3 * i] == (rounds[i].s1 + messages[3 * i]) % MODULUS
    && cipherText[3 * i + 1] == (rounds[i].s2 + messages[3 * i + 1]) % MODULUS
    && cipherText[3 * i + 2] == (rounds[i].s3 + messages[3 * i + 2]) % MODULUS
    && rounds[i + 1] == h(Quad(rounds[i].s0, cipherText[3 * i], cipherText[3 * i + 1], cipherText[3 * i + 2]))
  }

  /** All equations, for an already padded message and a given input to the first permutation. */
  predicate Wired(h: Hash, s: Quad, messages: seq<int>, cipherText: seq<int>, rounds: seq<Quad>) {
    && |messages| % 3 == 0
    && |cipherText| == |messages| + 1
    && |rounds| == |messages| / 3 + 1
    && rounds[0] == h(s)
    && (forall i | 0 <= i < |messages| / 3 :: RoundHolds(h, messages, cipherText, rounds, i))
    && cipherText[|messages|] == rounds[|messages| / 3].s1
  }

  /** The input to the first permutation, whose signals are field elements. */
  function InputState(key: seq<int>, nonce: int, l: nat): Quad
    requires |key| == 2
  {
    Quad(0, key[0], key[1], (nonce + l * TWO_128) % MODULUS)
  }

  /** The whole template. */
  predicate SymmetricEncrypt(h: Hash, plainText: seq<int>, key: seq<int>, nonce: int, cipherText: seq<int>,
                             bits: seq<int>, rounds: seq<Quad>)
    requires |key| == 2
  {
    && LessThanHolds(nonce, TWO_128, bits)
    && Wired(h, InputState(key, nonce, |plainText|), Pad(plainText), cipherText, rounds)
  }

  /** A prover can show this ciphertext. */
  ghost predicate Provable(h: Hash, plainText: seq<int>, key: seq<int>, nonce: int, cipherText: seq<int>)
    requires |key| == 2
  {
    exists bits, rounds :: SymmetricEncrypt(h, plainText, key, nonce, cipherText, bits, rounds)
  }

  function RoundResults(h: Hash, s: Quad, messages: seq<int>): (rounds: seq<Quad>)
    requires |messages| % 3 == 0
    ensures |rounds| == |messages| / 3 + 1
    decreases |messages|
  {
    [h(s)] + if messages == [] then [] else RoundResults(h, Absorb(h(s), messages), messages[3..])
  }

  lemma FirstRound(h: Hash, s: Quad, messages: seq<int>, cipherText: seq<int>, rounds: seq<Quad>)
    requires |messages| % 3 == 0 && messages != []
    requires |cipherText| == |messages| + 1 && |rounds| == |messages| / 3 + 1 && rounds[0] == h(s)
    ensures RoundHolds(h, messages, cipherText, rounds, 0) <==>
            var u := Absorb(h(s), messages);
            cipherText[..3] == [u.s1, u.s2, u.s3] && rounds[1] == h(u)
  {
    MaskIsSum(messages[0], h(s).s1);
    MaskIsSum(messages[1], h(s).s2);
    MaskIsSum(messages[2], h(s).s3);
  }

  lemma LaterRound(h: Hash, messages: seq<int>, cipherText: seq<int>, rounds: seq<Quad>, i: nat)
    requires |cipherText| == |messages| + 1 && |rounds| == |messages| / 3 + 1 && |messages| % 3 == 0
    requires i + 1 < |messages| / 3
    ensures RoundHolds(h, messages, cipherText, rounds, i + 1) <==> RoundHolds(h, messages[3..], cipherText[3..], rounds[1..], i)
  {
  }

  /** The wiring of a whole message is that of its first block and that of the rest. */
  lemma WiredUnfolds(h: Hash, s: Quad, messages: seq<int>, cipherText: seq<int>, rounds: seq<Quad>)
    requires |messages| % 3 == 0 && messages != []
    requires |cipherText| == |messages| + 1 && |rounds| == |messages| / 3 + 1
    ensures var u := Absorb(h(s), messages);
            Wired(h, s, messages, cipherText, rounds) <==>
              && rounds[0] == h(s) && cipherText[..3] == [u.s1, u.s2, u.s3]
              && Wired(h, u, messages[3..], cipherText[3..], rounds[1..])
  {
    if rounds[0] == h(s) {
      FirstRound(h, s, messages, cipherText, rounds);
      forall i | 0 <= i < |messages| / 3 - 1
        ensures RoundHolds(h, messages, cipherText, rounds, i + 1) <==> RoundHolds(h, messages[3..], cipherText[3..], rounds[1..], i)
      {
        LaterRound(h, messages, cipherText, rounds, i);
      }
      if Wired(h, Absorb(h(s), messages), messages[3..], cipherText[3..], rounds[1..]) {
        forall j | 1 <= j < |messages| / 3
          ensures RoundHolds(h, messages, cipherText, rounds, j)
        {
          assert RoundHolds(h, messages[3..], cipherText[3..], rounds[1..], j - 1);
        }
      }
    }
  }

  lemma {:induction false} WiredIsSealed(h: Hash, s: Quad, messages: seq<int>, cipherText: seq<int>, rounds: seq<Quad>)
    requires |messages| % 3 == 0
    ensures Wired(h, s, messages, cipherText, rounds) <==>
              && Seal(JsCipher.Total(h), EncryptBlocks(JsCipher.Total(h), s, messages)) == Ok(cipherText)
              && rounds == RoundResults(h, s, messages)
    decreases |messages|
  {
    var p := JsCipher.Total(h);
    TotalHashRuns(p, s, messages);
    if messages == [] {
      assert EncryptBlocks(p, s, messages) == Some(Run([], s));
      assert [] + [h(s).s1] == [h(s).s1] && RoundResults(h, s, messages) == [h(s)];
      assert |cipherText| == 1 ==> cipherText == [cipherText[0]];
      assert |rounds| == 1 ==> rounds == [rounds[0]];
    } else if |cipherText| == |messages| + 1 && |rounds| == |messages| / 3 + 1 {
      var u := Absorb(h(s), messages);
      var block := [u.s1, u.s2, u.s3];
      WiredUnfolds(h, s, messages, cipherText, rounds);
      WiredIsSealed(h, u, messages[3..], cipherText[3..], rounds[1..]);
      TotalHashRuns(p, u, messages[3..]);
      var rest := EncryptBlocks(p, u, messages[3..]).value;
      var tail := rest.out + [h(rest.state).s1];
      assert (block + rest.out) + [h(rest.state).s1] == block + tail;
      assert cipherText == cipherText[..3] + cipherText[3..];
      assert rounds == [rounds[0]] + rounds[1..];
    }
  }

  /** What the circuit accepts: nonces that pass the range check, with the sealed message for that input. */
  lemma ProvableIsSealed(h: Hash, plainText: seq<int>, key: seq<int>, nonce: Element, cipherText: seq<int>)
    requires |key| == 2
    ensures var p, s := JsCipher.Total(h), InputState(key, nonce, |plainText|);
            Provable(h, plainText, key, nonce, cipherText) <==>
              && (nonce < TWO_128 || nonce >= FIRST_WRAPPED)
              && Seal(p, EncryptBlocks(p, s, Pad(plainText))) == Ok(cipherText)
  {
    var s := InputState(key, nonce, |plainText|);
    NoncePasses(nonce);
    forall rounds {
      WiredIsSealed(h, s, Pad(plainText), cipherText, rounds);
    }
    if bits :| LessThanHolds(nonce, TWO_128, bits) {
      var rounds := RoundResults(h, s, Pad(plainText));
      assert Wired(h, s, Pad(plainText), cipherText, rounds) ==>
        SymmetricEncrypt(h, plainText, key, nonce, cipherText, bits, rounds);
    }
  }

  /** The circuit accepts what the Go library computes and nothing else. */
  ghost predicate MatchesGo(h: Hash, plainText: seq<int>, key: seq<int>, nonce: int)
    requires |key| == 2
  {
    forall cipherText ::
      Provable(h, plainText, key, nonce, cipherText) <==> Encrypt(JsCipher.Total(h), plainText, key, nonce) == Ok(cipherText)
  }

  /** Circuit and Go library agree exactly on the nonces that do not wrap around: both accept those below 2^128,
      with the same ciphertext, and refuse the others. */
  lemma CircuitMatchesGo(h: Hash, plainText: seq<int>, key: seq<int>, nonce: Element)
    requires |key| == 2 && |plainText| < 0x8000_0000_0000_0000
    ensures MatchesGo(h, plainText, key, nonce) <==> nonce < FIRST_WRAPPED
  {
    forall cipherText {
      ProvableIsSealed(h, plainText, key, nonce, cipherText);
    }
    if nonce < TWO_128 {
      InitialStateBinds(key, nonce, |plainText|, key, nonce, |plainText|);
    } else if nonce >= FIRST_WRAPPED {
      var _ := WrappedNonce(h, plainText, key, nonce);
    }
  }

  /** Where they disagree, the circuit accepts a ciphertext and the Go library refuses the nonce. */
  lemma WrappedNonce(h: Hash, plainText: seq<int>, key: seq<int>, nonce: Element) returns (cipherText: seq<int>)
    requires |key| == 2 && nonce >= FIRST_WRAPPED
    ensures Provable(h, plainText, key, nonce, cipherText)
    ensures Encrypt(JsCipher.Total(h), plainText, key, nonce) == Err(NonceTooLarge)
  {
    var p, s := JsCipher.Total(h), InputState(key, nonce, |plainText|);
    TotalHashRuns(p, s, Pad(plainText));
    cipherText := Seal(p, EncryptBlocks(p, s, Pad(plainText))).value;
    ProvableIsSealed(h, plainText, key, nonce, cipherText);
  }

  /** The largest field element is such a nonce. */
  lemma LargestNonce(h: Hash, plainText: seq<int>, key: seq<int>) returns (cipherText: seq<int>)
    requires |key| == 2
    ensures Provable(h, plainText, key, MODULUS - 1, cipherText)
    ensures Encrypt(JsCipher.Total(h), plainText, key, MODULUS - 1) == Err(NonceTooLarge)
  {
    cipherText := WrappedNonce(h, plainText, key, MODULUS - 1);
  }
}
