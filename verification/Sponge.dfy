// The Poseidon sponge cipher as a function of an arbitrary permutation.
//
// The permutation is any partial function on four integers: nothing is assumed of
// it, not even that it answers. A missing answer is the hash library's error.
module Sponge {
  import opened Prelude
  import opened Field

  datatype Quad = Quad(s0: int, s1: int, s2: int, s3: int)

  type Permutation = Quad -> Option<Quad>

  datatype CipherError =
    | KeyLength | NonceTooLarge | CipherTextLength | MessageLength
    | HashFailed | PaddingNotZero | TagMismatch

  type Outcome = Result<seq<int>, CipherError>

  // What a run over whole blocks has emitted, and the state it stopped in.
  datatype Run = Run(out: seq<int>, state: Quad)

  function PaddedLength(l: nat): (n: nat)
    ensures n % 3 == 0 && l <= n < l + 3
  {
    if l % 3 > 0 then l + (3 - l % 3) else l
  }

  function Zeros(n: nat): seq<int> {
    seq(n, _ => 0)
  }

  function Pad(msg: seq<int>): (padded: seq<int>)
    ensures |padded| == PaddedLength(|msg|)
  {
    msg + Zeros(PaddedLength(|msg|) - |msg|)
  }

  /** The capacity word carries the nonce and the message length. */
  function InitialState(key: seq<int>, nonce: int, l: nat): Quad
    requires |key| == 2
  {
    Quad(0, key[0], key[1], nonce + l * TWO_128)
  }

  /** The state after one message block: its last three words are the ciphertext block. */
  function Absorb(t: Quad, msg: seq<int>): Quad
    requires |msg| >= 3
  {
    Quad(t.s0, Mask(msg[0], t.s1), Mask(msg[1], t.s2), Mask(msg[2], t.s3))
  }

  /** Decryption replays the state by putting the ciphertext block in its place. */
  function Overwrite(t: Quad, c: seq<int>): Quad
    requires |c| >= 3
  {
    Quad(t.s0, c[0], c[1], c[2])
  }

  function UnmaskBlock(t: Quad, c: seq<int>): seq<int>
    requires |c| >= 3
  {
    [Unmask(c[0], t.s1), Unmask(c[1], t.s2), Unmask(c[2], t.s3)]
  }

  function EncryptBlocks(p: Permutation, s: Quad, msg: seq<int>): (run: Option<Run>)
    requires |msg| % 3 == 0
    ensures run.Some? ==> |run.value.out| == |msg| && Canonical(run.value.out)
    decreases |msg|
  {
    if msg == [] then Some(Run([], s)) else
      match p(s)
      case None => None
      case Some(t) =>
        var u := Absorb(t, msg);
        match EncryptBlocks(p, u, msg[3..])
        case None => None
        case Some(rest) => Some(Run([u.s1, u.s2, u.s3] + rest.out, rest.state))
  }

  function DecryptBlocks(p: Permutation, s: Quad, c: seq<int>): (run: Option<Run>)
    requires |c| % 3 == 0
    ensures run.Some? ==> |run.value.out| == |c| && Canonical(run.value.out)
    decreases |c|
  {
    if c == [] then Some(Run([], s)) else
      match p(s)
      case None => None
      case Some(t) =>
        match DecryptBlocks(p, Overwrite(t, c), c[3..])
        case None => None
        case Some(rest) =>
          Some(Run(UnmaskBlock(t, c) + rest.out, rest.state))
  }

  /** Absorb all blocks, permute once more and append the authentication element. */
  function Seal(p: Permutation, run: Option<Run>): Outcome {
    match run
    case None => Err(HashFailed)
    case Some(r) =>
      match p(r.state)
      case None => Err(HashFailed)
      case Some(t) => Ok(r.out + [t.s1])
  }

  /** The padding rule looks at the end of the last block, and only when the length exceeds 3. */
  predicate PaddingRejected(message: seq<int>, l: int)
    requires |message| % 3 == 0 && 1 <= l <= |message|
  {
    && l > 3
    && match l % 3
       case 2 => message[|message| - 1] != 0
       case 1 => message[|message| - 2] != 0 || message[|message| - 1] != 0
       case _ => false
  }

  function Open(p: Permutation, run: Option<Run>, tag: int, l: int): Outcome
    requires run.Some? ==> |run.value.out| % 3 == 0 && 1 <= l <= |run.value.out|
  {
    match run
    case None => Err(HashFailed)
    case Some(r) =>
      if PaddingRejected(r.out, l) then Err(PaddingNotZero) else
        match p(r.state)
        case None => Err(HashFailed)
        case Some(t) => if t.s1 != tag then Err(TagMismatch) else Ok(r.out[..l])
  }

  function Encrypt(p: Permutation, msg: seq<int>, key: seq<int>, nonce: int): Outcome {
    if |key| != 2 then Err(KeyLength)
    else if nonce >= TWO_128 then Err(NonceTooLarge)
    else Seal(p, EncryptBlocks(p, InitialState(key, nonce, |msg|), Pad(msg)))
  }

  function Decrypt(p: Permutation, c: seq<int>, key: seq<int>, nonce: int, l: int): Outcome {
    if |key| != 2 then Err(KeyLength)
    else if |c| % 3 != 1 then Err(CipherTextLength)
    else if nonce >= TWO_128 then Err(NonceTooLarge)
    else if l < 1 || l > |c| - 1 then Err(MessageLength)
    else Open(p, DecryptBlocks(p, InitialState(key, nonce, l), c[..|c| - 1]), c[|c| - 1], l)
  }

  // ---------------------------------------------------------------------------
  // The same computations from the front, as a loop performs them
  // ---------------------------------------------------------------------------

  /** What the encryption loop still yields: the words already written, then the blocks from the `i`th on. */
  function EncryptFrom(p: Permutation, done: seq<int>, s: Quad, msg: seq<int>, i: nat): Option<Run>
    requires |msg| % 3 == 0 && 3 * i <= |msg|
  {
    match EncryptBlocks(p, s, msg[3 * i..])
    case None => None
    case Some(run) => Some(Run(done + run.out, run.state))
  }

  lemma EncryptFromEnds(p: Permutation, done: seq<int>, s: Quad, msg: seq<int>)
    requires |msg| % 3 == 0
    ensures EncryptFrom(p, [], s, msg, 0) == EncryptBlocks(p, s, msg)
    ensures EncryptFrom(p, done, s, msg, |msg| / 3) == Some(Run(done, s))
  {
    assert msg[0..] == msg && msg[|msg|..] == [];
    var run := EncryptBlocks(p, s, msg);
    if run.Some? {
      assert [] + run.value.out == run.value.out;
    }
    assert done + [] == done;
  }

  lemma EncryptFromStep(p: Permutation, done: seq<int>, s: Quad, msg: seq<int>, i: nat)
    requires |msg| % 3 == 0 && 3 * i < |msg|
    ensures p(s).None? ==> EncryptFrom(p, done, s, msg, i) == None
    ensures p(s).Some? ==>
              var u := Absorb(p(s).value, [msg[3 * i], msg[3 * i + 1], msg[3 * i + 2]]);
              EncryptFrom(p, done, s, msg, i) == EncryptFrom(p, done + [u.s1, u.s2, u.s3], u, msg, i + 1)
  {
    var rest := msg[3 * i..];
    assert rest[3..] == msg[3 * (i + 1)..];
    if p(s).Some? {
      var u := Absorb(p(s).value, rest);
      var run := EncryptBlocks(p, u, rest[3..]);
      if run.Some? {
        ConcatAssociates(done, [u.s1, u.s2, u.s3], run.value.out);
      }
    }
  }

  lemma ConcatAssociates(a: seq<int>, b: seq<int>, c: seq<int>)
    ensures a + (b + c) == a + b + c
  {
  }

  lemma ThreeMore(done: seq<int>, a: int, b: int, c: int)
    ensures done + [a] + [b] + [c] == done + [a, b, c]
  {
  }

  /** What the decryption loop still yields. */
  function DecryptFrom(p: Permutation, done: seq<int>, s: Quad, c: seq<int>, i: nat): Option<Run>
    requires |c| % 3 == 0 && 3 * i <= |c|
  {
    match DecryptBlocks(p, s, c[3 * i..])
    case None => None
    case Some(run) => Some(Run(done + run.out, run.state))
  }

  lemma DecryptFromEnds(p: Permutation, done: seq<int>, s: Quad, c: seq<int>)
    requires |c| % 3 == 0
    ensures DecryptFrom(p, [], s, c, 0) == DecryptBlocks(p, s, c)
    ensures DecryptFrom(p, done, s, c, |c| / 3) == Some(Run(done, s))
  {
    assert c[0..] == c && c[|c|..] == [];
    var run := DecryptBlocks(p, s, c);
    if run.Some? {
      assert [] + run.value.out == run.value.out;
    }
    assert done + [] == done;
  }

  lemma DecryptFromStep(p: Permutation, done: seq<int>, s: Quad, c: seq<int>, i: nat)
    requires |c| % 3 == 0 && 3 * i < |c|
    ensures p(s).None? ==> DecryptFrom(p, done, s, c, i) == None
    ensures p(s).Some? ==>
              var t := p(s).value;
              var block := [c[3 * i], c[3 * i + 1], c[3 * i + 2]];
              DecryptFrom(p, done, s, c, i) == DecryptFrom(p, done + UnmaskBlock(t, block), Overwrite(t, block), c, i + 1)
  {
    var rest := c[3 * i..];
    if p(s).Some? {
      var t := p(s).value;
      assert rest[3..] == c[3 * (i + 1)..];
      var run := DecryptBlocks(p, Overwrite(t, rest), rest[3..]);
      if run.Some? {
        ConcatAssociates(done, UnmaskBlock(t, rest), run.value.out);
      }
    }
  }

  // ---------------------------------------------------------------------------
  // Round trip
  // ---------------------------------------------------------------------------

  lemma {:induction false} BlocksRoundTrip(p: Permutation, s: Quad, msg: seq<int>)
    requires |msg| % 3 == 0
    requires EncryptBlocks(p, s, msg).Some?
    ensures var run := EncryptBlocks(p, s, msg).value;
            DecryptBlocks(p, s, run.out) == Some(Run(ReduceAll(msg), run.state))
    decreases |msg|
  {
    if msg != [] {
      var t := p(s).value;
      var u := Absorb(t, msg);
      var run := EncryptBlocks(p, s, msg).value;
      var rest := EncryptBlocks(p, u, msg[3..]).value;
      assert run.out == [u.s1, u.s2, u.s3] + rest.out;
      assert run.out[3..] == rest.out;
      assert Overwrite(t, run.out) == u;
      BlocksRoundTrip(p, u, msg[3..]);
      UnmaskMask(msg[0], t.s1);
      UnmaskMask(msg[1], t.s2);
      UnmaskMask(msg[2], t.s3);
      assert ReduceAll(msg) == [Reduce(msg[0]), Reduce(msg[1]), Reduce(msg[2])] + ReduceAll(msg[3..]);
    } else {
      assert ReduceAll(msg) == [];
    }
  }

  /** Encryption succeeds exactly when its guards pass and the hash answers throughout. */
  lemma EncryptSucceeds(p: Permutation, msg: seq<int>, key: seq<int>, nonce: int)
    requires forall q :: p(q).Some?
    ensures Encrypt(p, msg, key, nonce).Ok? <==> |key| == 2 && nonce < TWO_128
    ensures Encrypt(p, msg, key, nonce).Ok? ==> |Encrypt(p, msg, key, nonce).value| == PaddedLength(|msg|) + 1
  {
    if |key| == 2 {
      TotalHashRuns(p, InitialState(key, nonce, |msg|), Pad(msg));
    }
  }

  lemma {:induction false} TotalHashRuns(p: Permutation, s: Quad, msg: seq<int>)
    requires |msg| % 3 == 0
    requires forall q :: p(q).Some?
    ensures EncryptBlocks(p, s, msg).Some?
    decreases |msg|
  {
    if msg != [] {
      var t := p(s).value;
      TotalHashRuns(p, Absorb(t, msg), msg[3..]);
    }
  }

  /** Zero padding survives reduction, so it passes the padding check and is cut off again. */
  lemma PaddingAccepted(msg: seq<int>)
    requires msg != []
    ensures !PaddingRejected(ReduceAll(Pad(msg)), |msg|)
    ensures ReduceAll(Pad(msg))[..|msg|] == ReduceAll(msg)
  {
    forall i | |msg| <= i < PaddedLength(|msg|)
      ensures ReduceAll(Pad(msg))[i] == 0
    {
    }
  }

  /** The state machine alone, before any guard: opening what was sealed gives the message back, reduced. */
  lemma OpenUndoesSeal(p: Permutation, s: Quad, msg: seq<int>, run: Run, t: Quad)
    requires msg != []
    requires EncryptBlocks(p, s, Pad(msg)) == Some(run) && p(run.state) == Some(t)
    ensures Open(p, DecryptBlocks(p, s, run.out), t.s1, |msg|) == Ok(ReduceAll(msg))
  {
    BlocksRoundTrip(p, s, Pad(msg));
    PaddingAccepted(msg);
  }

  /** Decrypting what was encrypted gives the message back, reduced, if and only if it was not empty. */
  lemma RoundTrip(p: Permutation, msg: seq<int>, key: seq<int>, nonce: int)
    requires Encrypt(p, msg, key, nonce).Ok?
    ensures var c := Encrypt(p, msg, key, nonce).value;
            if msg == [] then Decrypt(p, c, key, nonce, |msg|) == Err(MessageLength)
            else Decrypt(p, c, key, nonce, |msg|) == Ok(ReduceAll(msg))
  {
    var s := InitialState(key, nonce, |msg|);
    var c := Encrypt(p, msg, key, nonce).value;
    var run := EncryptBlocks(p, s, Pad(msg)).value;
    var t := p(run.state).value;
    assert c == run.out + [t.s1] && |run.out| == PaddedLength(|msg|);
    assert c[..|c| - 1] == run.out && |c| % 3 == 1;
    if msg != [] {
      OpenUndoesSeal(p, s, msg, run, t);
    }
  }

  // ---------------------------------------------------------------------------
  // Converse round trip
  // ---------------------------------------------------------------------------

  lemma {:induction false} BlocksConverse(p: Permutation, s: Quad, c: seq<int>)
    requires |c| % 3 == 0 && Canonical(c)
    requires DecryptBlocks(p, s, c).Some?
    ensures var run := DecryptBlocks(p, s, c).value;
            EncryptBlocks(p, s, run.out) == Some(Run(c, run.state))
    decreases |c|
  {
    if c != [] {
      var t := p(s).value;
      var run := DecryptBlocks(p, s, c).value;
      var rest := DecryptBlocks(p, Overwrite(t, c), c[3..]).value;
      assert run.out == UnmaskBlock(t, c) + rest.out;
      assert run.out[3..] == rest.out;
      BlocksConverse(p, Overwrite(t, c), c[3..]);
      MaskUnmaskBlock(t, c, run.out);
      assert c == [c[0], c[1], c[2]] + c[3..];
    }
  }

  lemma MaskUnmaskBlock(t: Quad, c: seq<int>, m: seq<int>)
    requires |c| >= 3 && |m| >= 3 && m[..3] == UnmaskBlock(t, c)
    requires Canonical(c)
    ensures Absorb(t, m) == Overwrite(t, c)
  {
    assert m[0] == m[..3][0] && m[1] == m[..3][1] && m[2] == m[..3][2];
    MaskUnmask(c[0], t.s1);
    MaskUnmask(c[1], t.s2);
    MaskUnmask(c[2], t.s3);
  }

  /** What block decryption yields beyond the message length. */
  function DecryptedPadding(p: Permutation, c: seq<int>, key: seq<int>, nonce: int, l: int): seq<int>
    requires Decrypt(p, c, key, nonce, l).Ok?
  {
    DecryptBlocks(p, InitialState(key, nonce, l), c[..|c| - 1]).value.out[l..]
  }

  /** A ciphertext that re-encryption gives back has the right length, reduced words and zero padding. */
  lemma ReencryptedShape(p: Permutation, c: seq<int>, key: seq<int>, nonce: int, l: int)
    requires Decrypt(p, c, key, nonce, l).Ok?
    requires Encrypt(p, Decrypt(p, c, key, nonce, l).value, key, nonce) == Ok(c)
    ensures |c| == PaddedLength(l) + 1 && Canonical(c[..|c| - 1])
    ensures DecryptedPadding(p, c, key, nonce, l) == Zeros(|c| - 1 - l)
  {
    var m := Decrypt(p, c, key, nonce, l).value;
    var s := InitialState(key, nonce, l);
    var back := EncryptBlocks(p, s, Pad(m)).value;
    assert c[..|c| - 1] == back.out;
    BlocksRoundTrip(p, s, Pad(m));
    assert forall i | l <= i < |c| - 1 :: ReduceAll(Pad(m))[i] == 0;
  }

  /** With the right length, reduced words and zero padding, re-encryption gives the ciphertext back. */
  lemma ShapeReencrypts(p: Permutation, c: seq<int>, key: seq<int>, nonce: int, l: int)
    requires Decrypt(p, c, key, nonce, l).Ok?
    requires |c| == PaddedLength(l) + 1 && Canonical(c[..|c| - 1])
    requires DecryptedPadding(p, c, key, nonce, l) == Zeros(|c| - 1 - l)
    ensures Encrypt(p, Decrypt(p, c, key, nonce, l).value, key, nonce) == Ok(c)
  {
    var s, body := InitialState(key, nonce, l), c[..|c| - 1];
    var run := DecryptBlocks(p, s, body).value;
    assert Pad(run.out[..l]) == run.out;
    BlocksConverse(p, s, body);
    var t := p(run.state).value;
    assert Seal(p, Some(Run(body, run.state))) == Ok(body + [t.s1]);
    assert body + [t.s1] == c;
  }

  /** Exactly which accepted ciphertexts are the encryption of the message they decrypt to. */
  lemma ConverseRoundTrip(p: Permutation, c: seq<int>, key: seq<int>, nonce: int, l: int)
    requires Decrypt(p, c, key, nonce, l).Ok?
    ensures Encrypt(p, Decrypt(p, c, key, nonce, l).value, key, nonce) == Ok(c) <==>
              && |c| == PaddedLength(l) + 1
              && Canonical(c[..|c| - 1])
              && (l > 3 || l % 3 == 0 || DecryptedPadding(p, c, key, nonce, l) == Zeros(|c| - 1 - l))
  {
    if Encrypt(p, Decrypt(p, c, key, nonce, l).value, key, nonce) == Ok(c) {
      ReencryptedShape(p, c, key, nonce, l);
    }
    if |c| == PaddedLength(l) + 1 && Canonical(c[..|c| - 1]) {
      if l > 3 || l % 3 == 0 {
        assert DecryptedPadding(p, c, key, nonce, l) == Zeros(|c| - 1 - l);
      }
      if DecryptedPadding(p, c, key, nonce, l) == Zeros(|c| - 1 - l) {
        ShapeReencrypts(p, c, key, nonce, l);
      }
    }
  }

  predicate Reencrypts(p: Permutation, c: seq<int>, key: seq<int>, nonce: int, l: int) {
    Decrypt(p, c, key, nonce, l).Ok? && |c| == PaddedLength(l) + 1 && Canonical(c)
    ==> Encrypt(p, Decrypt(p, c, key, nonce, l).value, key, nonce) == Ok(c)
  }

  predicate InField(q: Quad) {
    && 0 <= q.s0 < MODULUS && 0 <= q.s1 < MODULUS
    && 0 <= q.s2 < MODULUS && 0 <= q.s3 < MODULUS
  }

  /** What is known of Poseidon: it answers field elements with field elements. */
  ghost predicate FieldHash(p: Permutation) {
    forall q :: InField(q) ==> p(q).Some? && InField(p(q).value)
  }

  lemma FieldState(key: seq<int>, nonce: int, l: nat)
    requires |key| == 2 && Canonical(key) && 0 <= nonce < TWO_128 && l < 0x8000_0000_0000_0000
    ensures InField(InitialState(key, nonce, l))
  {
  }

  /** At lengths 1 and 2, under every such hash, key and nonce, a ciphertext is accepted that no
      encryption gives: its padding, which is not looked at, is 1. */
  lemma ShortConverseFails(p: Permutation, key: seq<int>, nonce: int, l: nat) returns (c: seq<int>)
    requires FieldHash(p) && |key| == 2 && Canonical(key) && 0 <= nonce < TWO_128
    requires l == 1 || l == 2
    ensures Decrypt(p, c, key, nonce, l).Ok? && |c| == PaddedLength(l) + 1 && Canonical(c)
    ensures DecryptedPadding(p, c, key, nonce, l)[2 - l] == 1
    ensures !Reencrypts(p, c, key, nonce, l)
  {
    var s := InitialState(key, nonce, l);
    FieldState(key, nonce, l);
    var t := p(s).value;
    var block := [0, 0, Mask(1, t.s3)];
    var u := Overwrite(t, block);
    assert InField(u);
    c := block + [p(u).value.s1];
    assert c[..|c| - 1] == block;
    var words := UnmaskBlock(t, block);
    UnmaskMask(1, t.s3);
    assert DecryptBlocks(p, u, block[3..]) == Some(Run([], u));
    assert words + [] == words;
    assert DecryptBlocks(p, s, block) == Some(Run(words, u));
    ConverseRoundTrip(p, c, key, nonce, l);
    assert DecryptedPadding(p, c, key, nonce, l)[2 - l] == 1;
  }

  /** For every hash on the field, the converse holds at precisely the lengths the padding check reaches. */
  lemma ConverseReach(p: Permutation, l: nat)
    requires FieldHash(p) && l >= 1
    ensures (forall c, key, nonce :: Reencrypts(p, c, key, nonce, l)) <==> l > 3 || l % 3 == 0
  {
    if l > 3 || l % 3 == 0 {
      forall c, key, nonce
        ensures Reencrypts(p, c, key, nonce, l)
      {
        if Decrypt(p, c, key, nonce, l).Ok? {
          ConverseRoundTrip(p, c, key, nonce, l);
        }
      }
    } else {
      var c := ShortConverseFails(p, [0, 0], 0, l);
      assert !Reencrypts(p, c, [0, 0], 0, l);
    }
  }

  // ---------------------------------------------------------------------------
  // Two hash implementations
  // ---------------------------------------------------------------------------

  /** `q` answers as `p` does wherever `p` answers. */
  ghost predicate Refines(q: Permutation, p: Permutation) {
    forall s :: p(s).Some? ==> q(s) == p(s)
  }

  lemma {:induction false} EncryptBlocksAgree(p: Permutation, q: Permutation, s: Quad, msg: seq<int>)
    requires Refines(q, p) && |msg| % 3 == 0
    requires EncryptBlocks(p, s, msg).Some?
    ensures EncryptBlocks(q, s, msg) == EncryptBlocks(p, s, msg)
    decreases |msg|
  {
    if msg != [] {
      var t := p(s).value;
      EncryptBlocksAgree(p, q, Absorb(t, msg), msg[3..]);
    }
  }

  lemma {:induction false} DecryptBlocksAgree(p: Permutation, q: Permutation, s: Quad, c: seq<int>)
    requires Refines(q, p) && |c| % 3 == 0
    requires DecryptBlocks(p, s, c).Some?
    ensures DecryptBlocks(q, s, c) == DecryptBlocks(p, s, c)
    decreases |c|
  {
    if c != [] {
      DecryptBlocksAgree(p, q, Overwrite(p(s).value, c), c[3..]);
    }
  }

  // ---------------------------------------------------------------------------
  // Binding of key, nonce and length
  // ---------------------------------------------------------------------------

  /** Exactly when two runs share an initial state. With nonces in range that is when key, nonce and length
      are all equal, and the capacity word is a field element for every length a 64-bit signed integer can hold. */
  lemma InitialStateBinds(key: seq<int>, nonce: int, l: nat, key': seq<int>, nonce': int, l': nat)
    requires |key| == |key'| == 2
    ensures InitialState(key, nonce, l) == InitialState(key', nonce', l') <==>
              key == key' && nonce - nonce' == (l' - l) * TWO_128
    ensures 0 <= nonce < TWO_128 && 0 <= nonce' < TWO_128 ==>
              (nonce - nonce' == (l' - l) * TWO_128 <==> nonce == nonce' && l == l')
    ensures 0 <= nonce < TWO_128 && l < 0x8000_0000_0000_0000 ==> 0 <= InitialState(key, nonce, l).s3 < MODULUS
  {
    if InitialState(key, nonce, l) == InitialState(key', nonce', l') {
      assert key == [key[0], key[1]] && key' == [key'[0], key'[1]];
    }
  }

  lemma {:induction false} FieldHashRuns(p: Permutation, s: Quad, msg: seq<int>)
    requires FieldHash(p) && InField(s) && |msg| % 3 == 0
    ensures Seal(p, EncryptBlocks(p, s, msg)).Ok?
    ensures EncryptBlocks(p, s, msg).Some? && InField(EncryptBlocks(p, s, msg).value.state)
    decreases |msg|
  {
    if msg != [] {
      var u := Absorb(p(s).value, msg);
      assert InField(u);
      FieldHashRuns(p, u, msg[3..]);
    }
  }

  lemma PadTakesZero(msg: seq<int>)
    requires |msg| % 3 != 0
    ensures Pad(msg + [0]) == Pad(msg)
  {
    var n := PaddedLength(|msg|);
    assert PaddedLength(|msg| + 1) == n;
    assert Zeros(n - |msg|) == [0] + Zeros(n - |msg| - 1);
    ConcatAssociates(msg, [0], Zeros(n - |msg| - 1));
  }

  /** The guard admits negative nonces. With one, a message that is one word longer starts from the same state, and
      both are encrypted; a zero in the place of padding even gives the very same ciphertext. */
  lemma NegativeNonceCollides(p: Permutation, msg: seq<int>, last: int, key: seq<int>, nonce: int)
    requires FieldHash(p) && |key| == 2 && Canonical(key) && 0 <= nonce < TWO_128 && |msg| < 0x8000_0000_0000_0000
    ensures InitialState(key, nonce, |msg|) == InitialState(key, nonce - TWO_128, |msg + [last]|)
    ensures Encrypt(p, msg, key, nonce).Ok? && Encrypt(p, msg + [last], key, nonce - TWO_128).Ok?
    ensures |msg| % 3 != 0 && last == 0 ==> Encrypt(p, msg, key, nonce) == Encrypt(p, msg + [last], key, nonce - TWO_128)
  {
    var s := InitialState(key, nonce, |msg|);
    assert InitialState(key, nonce - TWO_128, |msg + [last]|) == s;
    FieldState(key, nonce, |msg|);
    FieldHashRuns(p, s, Pad(msg));
    FieldHashRuns(p, s, Pad(msg + [last]));
    if |msg| % 3 != 0 && last == 0 {
      PadTakesZero(msg);
    }
  }
}
