// The JavaScript cipher, and its agreement with the Go cipher.
//
// Numbers are immutable here and arrays are only pushed to. The hash accepts every
// integer, so it is a total function; the guards are weaker than those of the Go library.
module JsCipher {
  import opened Prelude
  import opened Field
  import opened Sponge

  type Hash = Quad -> Quad

  function Total(h: Hash): Permutation {
    q => Some(h(q))
  }

  function QuadOf(state: seq<int>): Quad
    requires |state| == 4
  {
    Quad(state[0], state[1], state[2], state[3])
  }

  function ArrayOf(q: Quad): seq<int> {
    [q.s0, q.s1, q.s2, q.s3]
  }

  // ---------------------------------------------------------------------------
  // Encryption
  // ---------------------------------------------------------------------------

  function EncryptSpec(h: Hash, msg: seq<int>, key: seq<int>, nonce: int): Outcome {
    if |key| != 2 then Err(KeyLength)
    else Seal(Total(h), EncryptBlocks(Total(h), InitialState(key, nonce, |msg|), Pad(msg)))
  }

  /** The copy of the message and the loop that pads it with zeros. */
  method PadMessage(msg: seq<int>) returns (message: seq<int>)
    ensures message == Pad(msg)
  {
    message := msg;
    while |message| % 3 > 0
      invariant |msg| <= |message| <= PaddedLength(|msg|)
      invariant message == msg + Zeros(|message| - |msg|)
      decreases PaddedLength(|msg|) - |message|
    {
      message := message + [0];
    }
  }

  method PoseidonEncrypt(h: Hash, msg: seq<int>, key: seq<int>, nonce: int) returns (r: Outcome)
    ensures r == EncryptSpec(h, msg, key, nonce)
  {
    if |key| != 2 {
      return Err(KeyLength);
    }
    var message := PadMessage(msg);
    var state := [0, key[0], key[1], nonce + |msg| * TWO_128];
    ghost var s0, p := QuadOf(state), Total(h);
    var ciphertext := [];
    var n := |message| / 3;
    EncryptFromEnds(p, [], s0, message);
    for i := 0 to n
      invariant |state| == 4
      invariant EncryptBlocks(p, s0, message) == EncryptFrom(p, ciphertext, QuadOf(state), message, i)
    {
      EncryptFromStep(p, ciphertext, QuadOf(state), message, i);
      ghost var done := ciphertext;
      ghost var u := Absorb(h(QuadOf(state)), [message[i * 3], message[i * 3 + 1], message[i * 3 + 2]]);
      state := ArrayOf(h(QuadOf(state)));
      state := AddBlock(state, message[i * 3], message[i * 3 + 1], message[i * 3 + 2]);
      ciphertext := ciphertext + [state[1]];
      ciphertext := ciphertext + [state[2]];
      ciphertext := ciphertext + [state[3]];
      ThreeMore(done, u.s1, u.s2, u.s3);
    }
    EncryptFromEnds(p, ciphertext, QuadOf(state), message);
    state := ArrayOf(h(QuadOf(state)));
    ciphertext := ciphertext + [state[1]];
    r := Ok(ciphertext);
  }

  /** The three calls of `addMod` in an encryption round. */
  method AddBlock(permuted: seq<int>, m0: int, m1: int, m2: int) returns (state: seq<int>)
    requires |permuted| == 4
    ensures |state| == 4 && QuadOf(state) == Absorb(QuadOf(permuted), [m0, m1, m2])
  {
    var w0, _ := AddMod(m0, permuted[1]);
    var w1, _ := AddMod(m1, permuted[2]);
    var w2, _ := AddMod(m2, permuted[3]);
    MaskIsSum(m0, permuted[1]);
    MaskIsSum(m1, permuted[2]);
    MaskIsSum(m2, permuted[3]);
    state := permuted[1 := w0][2 := w1][3 := w2];
  }

  // ---------------------------------------------------------------------------
  // Decryption
  // ---------------------------------------------------------------------------

  /** The same rule as in Go, where `message` may also be empty: reading past its start gives no zero. */
  predicate PaddingThrows(message: seq<int>, l: nat)
    requires |message| % 3 == 0
  {
    && l > 3 && l % 3 != 0
    && (|message| == 0 || message[|message| - 1] != 0 || (l % 3 == 1 && message[|message| - 2] != 0))
  }

  function DecryptSpec(h: Hash, c: seq<int>, key: seq<int>, nonce: int, l: int): Outcome {
    if |key| != 2 then Err(KeyLength)
    else if l < 0 then Err(MessageLength)
    else
      match DecryptBlocks(Total(h), InitialState(key, nonce, l), c[..3 * (|c| / 3)])
      case None => Err(HashFailed)
      case Some(run) =>
        if PaddingThrows(run.out, l) then Err(PaddingNotZero)
        else if c == [] || c[|c| - 1] != h(run.state).s1 then Err(TagMismatch)
        else Ok(if l <= |run.out| then run.out[..l] else run.out)
  }

  lemma {:induction false} TotalHashDecrypts(h: Hash, s: Quad, c: seq<int>)
    requires |c| % 3 == 0
    ensures DecryptBlocks(Total(h), s, c).Some?
    decreases |c|
  {
    if c != [] {
      TotalHashDecrypts(h, Overwrite(h(s), c), c[3..]);
    }
  }

  /** The decryption loop over the whole blocks of the ciphertext. */
  method DecryptLoop(h: Hash, ciphertext: seq<int>, initial: seq<int>) returns (message: seq<int>, state: seq<int>)
    requires |initial| == 4
    ensures |state| == 4
    ensures DecryptBlocks(Total(h), QuadOf(initial), ciphertext[..3 * (|ciphertext| / 3)]) == Some(Run(message, QuadOf(state)))
  {
    state, message := initial, [];
    var n := |ciphertext| / 3;
    ghost var p, body := Total(h), ciphertext[..3 * n];
    DecryptFromEnds(p, [], QuadOf(state), body);
    for i := 0 to n
      invariant |state| == 4
      invariant DecryptBlocks(p, QuadOf(initial), body) == DecryptFrom(p, message, QuadOf(state), body, i)
    {
      DecryptFromStep(p, message, QuadOf(state), body, i);
      state := ArrayOf(h(QuadOf(state)));
      var words := SubBlock(state, ciphertext[i * 3], ciphertext[i * 3 + 1], ciphertext[i * 3 + 2]);
      message := message + words;
      state := state[1 := ciphertext[i * 3]];
      state := state[2 := ciphertext[i * 3 + 1]];
      state := state[3 := ciphertext[i * 3 + 2]];
    }
    DecryptFromEnds(p, message, QuadOf(state), body);
  }

  method PoseidonDecrypt(h: Hash, ciphertext: seq<int>, key: seq<int>, nonce: int, length: int) returns (r: Outcome)
    ensures r == DecryptSpec(h, ciphertext, key, nonce, length)
  {
    if |key| != 2 {
      return Err(KeyLength);
    }
    if length != 0 && length < 1 {
      return Err(MessageLength);
    }
    var state := [0, key[0], key[1], nonce + length * TWO_128];
    TotalHashDecrypts(h, QuadOf(state), ciphertext[..3 * (|ciphertext| / 3)]);
    var message;
    message, state := DecryptLoop(h, ciphertext, state);
    if length > 3 {
      if length % 3 == 2 {
        if |message| == 0 || message[|message| - 1] != 0 {
          return Err(PaddingNotZero);
        }
      } else if length % 3 == 1 {
        if |message| == 0 || message[|message| - 1] != 0 {
          return Err(PaddingNotZero);
        }
        if message[|message| - 2] != 0 {
          return Err(PaddingNotZero);
        }
      }
    }
    state := ArrayOf(h(QuadOf(state)));
    if |ciphertext| == 0 || ciphertext[|ciphertext| - 1] != state[1] {
      return Err(TagMismatch);
    }
    r := Ok(if length <= |message| then message[..length] else message);
  }

  /** The three words a decryption round releases, each a call of `addMod` on a negated key-stream word. */
  method SubBlock(permuted: seq<int>, c0: int, c1: int, c2: int) returns (words: seq<int>)
    requires |permuted| == 4
    ensures words == UnmaskBlock(QuadOf(permuted), [c0, c1, c2])
  {
    var w0, _ := AddMod(c0, -permuted[1]);
    var w1, _ := AddMod(c1, -permuted[2]);
    var w2, _ := AddMod(c2, -permuted[3]);
    UnmaskIsSum(c0, permuted[1]);
    UnmaskIsSum(c1, permuted[2]);
    UnmaskIsSum(c2, permuted[3]);
    words := [w0, w1, w2];
  }

  // ---------------------------------------------------------------------------
  // Round trip and agreement with Go
  // ---------------------------------------------------------------------------

  /** The JavaScript pair round-trips on every message, the empty one included, and on every nonce. */
  lemma RoundTripJs(h: Hash, msg: seq<int>, key: seq<int>, nonce: int)
    requires |key| == 2
    ensures EncryptSpec(h, msg, key, nonce).Ok?
    ensures DecryptSpec(h, EncryptSpec(h, msg, key, nonce).value, key, nonce, |msg|) == Ok(ReduceAll(msg))
  {
    var p, s := Total(h), InitialState(key, nonce, |msg|);
    TotalHashRuns(p, s, Pad(msg));
    var run := EncryptBlocks(p, s, Pad(msg)).value;
    var c := run.out + [h(run.state).s1];
    assert EncryptSpec(h, msg, key, nonce) == Ok(c);
    assert c[..3 * (|c| / 3)] == run.out;
    BlocksRoundTrip(p, s, Pad(msg));
    if msg != [] {
      PaddingAccepted(msg);
    }
    assert ReduceAll(Pad(msg))[..|msg|] == ReduceAll(msg);
  }

  /** Exactly when both encrypt alike: the guard on the nonce is Go's alone, and so is a hash that refuses. */
  lemma EncryptAgrees(p: Permutation, h: Hash, msg: seq<int>, key: seq<int>, nonce: int)
    requires Refines(Total(h), p)
    ensures EncryptSpec(h, msg, key, nonce) == Encrypt(p, msg, key, nonce) <==>
              |key| != 2 || (nonce < TWO_128 && Encrypt(p, msg, key, nonce) != Err(HashFailed))
  {
    if |key| == 2 {
      var s := InitialState(key, nonce, |msg|);
      TotalHashRuns(Total(h), s, Pad(msg));
      if EncryptBlocks(p, s, Pad(msg)).Some? {
        EncryptBlocksAgree(p, Total(h), s, Pad(msg));
      }
    }
  }

  /** Exactly when both decrypt alike, to the same message or the same error. */
  lemma DecryptAgrees(p: Permutation, h: Hash, c: seq<int>, key: seq<int>, nonce: int, l: int)
    requires Refines(Total(h), p)
    ensures DecryptSpec(h, c, key, nonce, l) == Decrypt(p, c, key, nonce, l) <==>
              || |key| != 2
              || (&& |c| % 3 == 1 && nonce < TWO_128
                  && (l < 0 || (1 <= l <= |c| - 1 && Decrypt(p, c, key, nonce, l) != Err(HashFailed))))
  {
    if |key| == 2 && l >= 0 {
      var s := InitialState(key, nonce, l);
      TotalHashDecrypts(h, s, c[..3 * (|c| / 3)]);
      if |c| % 3 == 1 && DecryptBlocks(p, s, c[..|c| - 1]).Some? {
        assert c[..3 * (|c| / 3)] == c[..|c| - 1];
        DecryptBlocksAgree(p, Total(h), s, c[..|c| - 1]);
      }
    }
  }

  // ---------------------------------------------------------------------------
  // The same, for a hash whose refusals are known
  // ---------------------------------------------------------------------------

  predicate AllFit(fits: int -> bool, words: seq<int>) {
    forall i | 0 <= i < |words| :: fits(words[i])
  }

  predicate QuadFits(fits: int -> bool, q: Quad) {
    fits(q.s0) && fits(q.s1) && fits(q.s2) && fits(q.s3)
  }

  /** The hash answers exactly when all four words fit, with field elements, and field elements fit. */
  ghost predicate AnswersExactly(p: Permutation, fits: int -> bool) {
    && (forall x | 0 <= x < MODULUS :: fits(x))
    && (forall q :: p(q).Some? <==> QuadFits(fits, q))
    && (forall q | p(q).Some? :: InField(p(q).value))
  }

  lemma {:induction false} EncryptAnswers(p: Permutation, fits: int -> bool, s: Quad, msg: seq<int>)
    requires AnswersExactly(p, fits) && |msg| % 3 == 0
    ensures Seal(p, EncryptBlocks(p, s, msg)) == Err(HashFailed) <==> !QuadFits(fits, s)
    decreases |msg|
  {
    if msg != [] && p(s).Some? {
      var u := Absorb(p(s).value, msg);
      EncryptAnswers(p, fits, u, msg[3..]);
    }
  }

  lemma BlockFits(fits: int -> bool, a: int, b: int, c: int)
    ensures AllFit(fits, [a, b, c]) <==> fits(a) && fits(b) && fits(c)
  {
    var block := [a, b, c];
    assert AllFit(fits, block) ==> fits(block[0]) && fits(block[1]) && fits(block[2]);
  }

  lemma FitConcat(fits: int -> bool, a: seq<int>, b: seq<int>)
    ensures AllFit(fits, a + b) <==> AllFit(fits, a) && AllFit(fits, b)
  {
    if AllFit(fits, a + b) {
      assert forall i | 0 <= i < |a| :: a[i] == (a + b)[i];
      assert forall i | 0 <= i < |b| :: b[i] == (a + b)[|a| + i];
    }
  }

  /** What the hash makes of the first block: it fits if and only if the next state does. */
  lemma NextStateFits(p: Permutation, fits: int -> bool, s: Quad, c: seq<int>)
    requires AnswersExactly(p, fits) && |c| >= 3 && p(s).Some?
    ensures QuadFits(fits, Overwrite(p(s).value, c)) <==> AllFit(fits, c[..3])
  {
    BlockFits(fits, c[0], c[1], c[2]);
    assert c[..3] == [c[0], c[1], c[2]];
  }

  lemma OneBlock(p: Permutation, s: Quad, c: seq<int>)
    requires |c| == 3
    ensures DecryptBlocks(p, s, c).Some? <==> p(s).Some?
    ensures p(s).Some? ==> DecryptBlocks(p, s, c).value.state == Overwrite(p(s).value, c)
  {
    assert c[3..] == [];
  }

  /** The hash sees the initial state and every block; only the last block comes after the padding check. */
  lemma {:induction false} DecryptAnswers(p: Permutation, fits: int -> bool, s: Quad, body: seq<int>, last: seq<int>)
    requires AnswersExactly(p, fits) && |body| % 3 == 0 && |last| == 3
    ensures var run := DecryptBlocks(p, s, body + last);
            && (run.Some? <==> QuadFits(fits, s) && AllFit(fits, body))
            && (run.Some? ==> (p(run.value.state).Some? <==> AllFit(fits, last)))
    decreases |body|
  {
    if p(s).Some? {
      if body == [] {
        assert body + last == last && last[..3] == last;
        OneBlock(p, s, last);
        NextStateFits(p, fits, s, last);
      } else {
        var u := Overwrite(p(s).value, body);
        NextStateFits(p, fits, s, body);
        DecryptAnswers(p, fits, u, body[3..], last);
        assert (body + last)[3..] == body[3..] + last && Overwrite(p(s).value, body + last) == u;
        assert body == body[..3] + body[3..];
        FitConcat(fits, body[..3], body[3..]);
      }
    }
  }

  /** In terms of the arguments alone: both encrypt alike when the nonce passes and key and capacity word fit the hash. */
  lemma EncryptAgreesWhere(p: Permutation, h: Hash, fits: int -> bool, msg: seq<int>, key: seq<int>, nonce: int)
    requires Refines(Total(h), p) && AnswersExactly(p, fits)
    ensures EncryptSpec(h, msg, key, nonce) == Encrypt(p, msg, key, nonce) <==>
              || |key| != 2
              || (nonce < TWO_128 && AllFit(fits, key) && fits(nonce + |msg| * TWO_128))
  {
    EncryptAgrees(p, h, msg, key, nonce);
    if |key| == 2 {
      EncryptAnswers(p, fits, InitialState(key, nonce, |msg|), Pad(msg));
    }
  }

  /** When the Go hash refuses during a decryption that passes the guards. The last block is hashed after its
      padding was checked, so it may go unseen. */
  predicate HashSeesUnfit(h: Hash, fits: int -> bool, c: seq<int>, key: seq<int>, nonce: int, l: int)
    requires |key| == 2 && |c| >= 4
  {
    || !AllFit(fits, key) || !fits(nonce + l * TWO_128) || !AllFit(fits, c[..|c| - 4])
    || (!AllFit(fits, c[|c| - 4..|c| - 1]) && DecryptSpec(h, c, key, nonce, l) != Err(PaddingNotZero))
  }

  lemma HashFailsWhere(p: Permutation, h: Hash, fits: int -> bool, c: seq<int>, key: seq<int>, nonce: int, l: int)
    requires Refines(Total(h), p) && AnswersExactly(p, fits)
    requires |key| == 2 && |c| % 3 == 1 && nonce < TWO_128 && 1 <= l <= |c| - 1
    ensures Decrypt(p, c, key, nonce, l) == Err(HashFailed) <==> HashSeesUnfit(h, fits, c, key, nonce, l)
  {
    var s, body, last := InitialState(key, nonce, l), c[..|c| - 4], c[|c| - 4..|c| - 1];
    DecryptAnswers(p, fits, s, body, last);
    assert c[..|c| - 1] == c[..3 * (|c| / 3)] == body + last;
    assert QuadFits(fits, s) <==> AllFit(fits, key) && fits(nonce + l * TWO_128) by {
      BlockFits(fits, 0, key[0], key[1]);
      assert [0] + key == [0, key[0], key[1]];
      FitConcat(fits, [0], key);
    }
    if DecryptBlocks(p, s, body + last).Some? {
      DecryptBlocksAgree(p, Total(h), s, body + last);
    }
  }

  /** In terms of the arguments: both decrypt alike when Go's guards on ciphertext, nonce and length pass and the
      hash sees nothing that does not fit it. */
  lemma DecryptAgreesWhere(p: Permutation, h: Hash, fits: int -> bool, c: seq<int>, key: seq<int>, nonce: int, l: int)
    requires Refines(Total(h), p) && AnswersExactly(p, fits)
    ensures DecryptSpec(h, c, key, nonce, l) == Decrypt(p, c, key, nonce, l) <==>
              || |key| != 2
              || (&& |c| % 3 == 1 && nonce < TWO_128
                  && (l < 0 || (1 <= l <= |c| - 1 && !HashSeesUnfit(h, fits, c, key, nonce, l))))
  {
    DecryptAgrees(p, h, c, key, nonce, l);
    if |key| == 2 && |c| % 3 == 1 && nonce < TWO_128 && 1 <= l <= |c| - 1 {
      HashFailsWhere(p, h, fits, c, key, nonce, l);
    }
  }

  // ---------------------------------------------------------------------------
  // Ciphertexts of any form
  // ---------------------------------------------------------------------------

  /** JavaScript decrypts a ciphertext of any form as its whole blocks followed by its last word. */
  lemma AnyForm(h: Hash, c: seq<int>, key: seq<int>, nonce: int, l: int)
    requires c != []
    ensures DecryptSpec(h, c, key, nonce, l) == DecryptSpec(h, c[..3 * (|c| / 3)] + [c[|c| - 1]], key, nonce, l)
  {
    var body := c[..3 * (|c| / 3)];
    var formed := body + [c[|c| - 1]];
    assert formed[..3 * (|formed| / 3)] == body;
  }

  /** There Go decrypts it to the same result, if nonce and length are in its range. */
  lemma AnyFormAgrees(h: Hash, c: seq<int>, key: seq<int>, nonce: int, l: int)
    requires nonce < TWO_128 && 1 <= l <= 3 * (|c| / 3)
    ensures DecryptSpec(h, c, key, nonce, l) == Decrypt(Total(h), c[..3 * (|c| / 3)] + [c[|c| - 1]], key, nonce, l)
  {
    var body := c[..3 * (|c| / 3)];
    AnyForm(h, c, key, nonce, l);
    DecryptAgrees(Total(h), h, body + [c[|c| - 1]], key, nonce, l);
    if |key| == 2 {
      TotalNeverFails(h, body + [c[|c| - 1]], key, nonce, l);
    }
  }

  lemma TotalNeverFails(h: Hash, c: seq<int>, key: seq<int>, nonce: int, l: int)
    requires |key| == 2 && |c| % 3 == 1
    ensures Decrypt(Total(h), c, key, nonce, l) != Err(HashFailed)
  {
    if 1 <= l {
      TotalHashDecrypts(h, InitialState(key, nonce, l), c[..|c| - 1]);
    }
  }

  /** With another last word no accepted ciphertext is accepted, whatever nonce and length. */
  lemma LastWordMatters(h: Hash, body: seq<int>, tag: int, other: int, key: seq<int>, nonce: int, l: int)
    requires |body| % 3 == 0 && tag != other
    requires DecryptSpec(h, body + [tag], key, nonce, l).Ok?
    ensures DecryptSpec(h, body + [other], key, nonce, l) == Err(TagMismatch)
  {
    var n := 3 * (|body + [tag]| / 3);
    assert (body + [tag])[..n] == body && (body + [other])[..n] == body;
  }

  /** The message has the length asked for, or that of the whole blocks if they are fewer. */
  lemma MessageLengthIs(h: Hash, c: seq<int>, key: seq<int>, nonce: int, l: int)
    requires DecryptSpec(h, c, key, nonce, l).Ok?
    ensures l >= 0 && |DecryptSpec(h, c, key, nonce, l).value| == if l <= 3 * (|c| / 3) then l else 3 * (|c| / 3)
  {
  }

  /** The empty array is refused, and one without a whole block already for the padding it cannot show. */
  lemma ShortRefused(h: Hash, c: seq<int>, key: seq<int>, nonce: int, l: int)
    requires |key| == 2 && |c| < 3
    ensures c == [] ==> DecryptSpec(h, c, key, nonce, l).Err?
    ensures l > 3 && l % 3 != 0 ==> DecryptSpec(h, c, key, nonce, l) == Err(PaddingNotZero)
  {
    assert c[..3 * (|c| / 3)] == [];
  }

  /** Where the padding is looked at alike, a longer length is as good as a larger nonce. */
  lemma LengthForNonce(h: Hash, c: seq<int>, key: seq<int>, nonce: int, l: nat, l': nat)
    requires |key| == 2 && l % 3 == l' % 3 && (l > 3 <==> l' > 3)
    ensures var r, r' := DecryptSpec(h, c, key, nonce, l), DecryptSpec(h, c, key, nonce + (l - l') * TWO_128, l');
            if r.Err? then r == r'
            else r'.Ok? && if l <= l' then r.value <= r'.value else r'.value <= r.value
  {
    InitialStateBinds(key, nonce, l, key, nonce + (l - l') * TWO_128, l');
  }

  /** A nonce of 2^128 tells them apart: Go refuses it twice, JavaScript encrypts and decrypts. */
  lemma LargeNonceDiffers(h: Hash, msg: seq<int>, key: seq<int>)
    requires |key| == 2
    ensures Encrypt(Total(h), msg, key, TWO_128) == Err(NonceTooLarge)
    ensures var c := EncryptSpec(h, msg, key, TWO_128);
            && c.Ok? && DecryptSpec(h, c.value, key, TWO_128, |msg|) == Ok(ReduceAll(msg))
            && Decrypt(Total(h), c.value, key, TWO_128, |msg|) == Err(NonceTooLarge)
  {
    RoundTripJs(h, msg, key, TWO_128);
    TotalHashRuns(Total(h), InitialState(key, TWO_128, |msg|), Pad(msg));
  }

  /** What Go decrypts, JavaScript decrypts to the same message. */
  lemma ReadsWhatGoReads(p: Permutation, h: Hash, c: seq<int>, key: seq<int>, nonce: int, l: int)
    requires Refines(Total(h), p)
    requires Decrypt(p, c, key, nonce, l).Ok?
    ensures DecryptSpec(h, c, key, nonce, l) == Decrypt(p, c, key, nonce, l)
  {
    DecryptAgrees(p, h, c, key, nonce, l);
  }

  /** A message encrypted by Go is read back by JavaScript. */
  lemma GoToJs(p: Permutation, h: Hash, msg: seq<int>, key: seq<int>, nonce: int)
    requires Refines(Total(h), p)
    requires Encrypt(p, msg, key, nonce).Ok?
    ensures DecryptSpec(h, Encrypt(p, msg, key, nonce).value, key, nonce, |msg|) == Ok(ReduceAll(msg))
  {
    EncryptAgrees(p, h, msg, key, nonce);
    RoundTripJs(h, msg, key, nonce);
  }
}
