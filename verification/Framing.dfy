// How several ciphertexts share one flat array of public signals, and how the
// recipients and the auditor cut it up again. Every reader may use either library.
module Framing {
  import opened Prelude
  import opened Field
  import opened Sponge
  import opened JsCipher

  datatype Output = Output(sharedKey: seq<int>, owner: (int, int), secret: (int, int))

  /** The ciphertexts of all outputs, one after another. */
  function EncryptOutputs(p: Permutation, outputs: seq<Output>, nonce: int): Outcome {
    if outputs == [] then Ok([]) else
      match Encrypt(p, [outputs[0].secret.0, outputs[0].secret.1], outputs[0].sharedKey, nonce)
      case Err(e) => Err(e)
      case Ok(c) =>
        match EncryptOutputs(p, outputs[1..], nonce)
        case Err(e) => Err(e)
        case Ok(rest) => Ok(c + rest)
  }

  lemma EncryptedLength(p: Permutation, msg: seq<int>, key: seq<int>, nonce: int)
    requires Encrypt(p, msg, key, nonce).Ok?
    ensures |Encrypt(p, msg, key, nonce).value| == PaddedLength(|msg|) + 1
  {
  }

  /** Both libraries decrypt `c` to `m`: Go's on the hash `p`, JavaScript's on `h`. */
  predicate BothRead(p: Permutation, h: Hash, c: seq<int>, key: seq<int>, nonce: int, m: seq<int>) {
    Decrypt(p, c, key, nonce, |m|) == Ok(m) && DecryptSpec(h, c, key, nonce, |m|) == Ok(m)
  }

  /** The `i`th slice of four words decrypts, with the `i`th key, to the `i`th pair. */
  predicate ReceiverReads(p: Permutation, h: Hash, blob: seq<int>, outputs: seq<Output>, nonce: int, i: nat)
    requires i < |outputs|
  {
    && 4 * i + 4 <= |blob|
    && BothRead(p, h, blob[4 * i..4 * i + 4], outputs[i].sharedKey, nonce,
                [Reduce(outputs[i].secret.0), Reduce(outputs[i].secret.1)])
  }

  predicate AllReceiversRead(p: Permutation, h: Hash, blob: seq<int>, outputs: seq<Output>, nonce: int) {
    |blob| == 4 * |outputs| && forall i | 0 <= i < |outputs| :: ReceiverReads(p, h, blob, outputs, nonce, i)
  }

  lemma PairRoundTrip(p: Permutation, h: Hash, pair: (int, int), key: seq<int>, nonce: int)
    requires Refines(Total(h), p)
    requires Encrypt(p, [pair.0, pair.1], key, nonce).Ok?
    ensures var c := Encrypt(p, [pair.0, pair.1], key, nonce).value;
            |c| == 4 && BothRead(p, h, c, key, nonce, [Reduce(pair.0), Reduce(pair.1)])
  {
    var msg := [pair.0, pair.1];
    EncryptedLength(p, msg, key, nonce);
    RoundTrip(p, msg, key, nonce);
    ReadsWhatGoReads(p, h, Encrypt(p, msg, key, nonce).value, key, nonce, 2);
    assert ReduceAll(msg) == [Reduce(pair.0), Reduce(pair.1)];
  }

  /** A pair's ciphertext in front of the others shifts every slice by four. */
  lemma JoinedReads(p: Permutation, h: Hash, c: seq<int>, rest: seq<int>, outputs: seq<Output>, nonce: int)
    requires outputs != [] && |c| == 4 && AllReceiversRead(p, h, rest, outputs[1..], nonce)
    requires ReceiverReads(p, h, c, outputs[..1], nonce, 0)
    ensures AllReceiversRead(p, h, c + rest, outputs, nonce)
  {
    var blob := c + rest;
    forall i | 0 <= i < |outputs|
      ensures ReceiverReads(p, h, blob, outputs, nonce, i)
    {
      if i == 0 {
        assert blob[0..4] == c == c[0..4];
      } else {
        assert ReceiverReads(p, h, rest, outputs[1..], nonce, i - 1);
        assert blob[4 * i..4 * i + 4] == rest[4 * (i - 1)..4 * (i - 1) + 4];
      }
    }
  }

  lemma {:induction false} SlicesDecrypt(p: Permutation, h: Hash, outputs: seq<Output>, nonce: int)
    requires Refines(Total(h), p)
    requires EncryptOutputs(p, outputs, nonce).Ok?
    ensures AllReceiversRead(p, h, EncryptOutputs(p, outputs, nonce).value, outputs, nonce)
    decreases |outputs|
  {
    if outputs != [] {
      var first := outputs[0];
      var c := Encrypt(p, [first.secret.0, first.secret.1], first.sharedKey, nonce).value;
      PairRoundTrip(p, h, first.secret, first.sharedKey, nonce);
      assert c[0..4] == c;
      SlicesDecrypt(p, h, outputs[1..], nonce);
      JoinedReads(p, h, c, EncryptOutputs(p, outputs[1..], nonce).value, outputs, nonce);
    }
  }

  // ---------------------------------------------------------------------------
  // The message to the auditing authority
  // ---------------------------------------------------------------------------

  function Flatten(pairs: seq<(int, int)>): (flat: seq<int>)
    ensures |flat| == 2 * |pairs|
    ensures forall i | 0 <= i < |pairs| :: flat[2 * i] == pairs[i].0 && flat[2 * i + 1] == pairs[i].1
  {
    if pairs == [] then [] else
      var init := Flatten(pairs[..|pairs| - 1]);
      init + [pairs[|pairs| - 1].0, pairs[|pairs| - 1].1]
  }

  function Owners(outputs: seq<Output>): seq<(int, int)> {
    seq(|outputs|, i requires 0 <= i < |outputs| => outputs[i].owner)
  }

  function Secrets(outputs: seq<Output>): seq<(int, int)> {
    seq(|outputs|, i requires 0 <= i < |outputs| => outputs[i].secret)
  }

  /** Sender key, input secrets, output owners, output secrets. */
  function AuditMessage(sender: (int, int), inputs: seq<(int, int)>, outputs: seq<Output>): seq<int> {
    [sender.0, sender.1] + Flatten(inputs) + Flatten(Owners(outputs)) + Flatten(Secrets(outputs))
  }

  predicate PairAt(words: seq<int>, at: nat, pair: (int, int)) {
    at + 1 < |words| && words[at] == Reduce(pair.0) && words[at + 1] == Reduce(pair.1)
  }

  /** The authority finds every secret and every owner at its fixed offset. */
  predicate AuditReads(words: seq<int>, sender: (int, int), inputs: seq<(int, int)>, outputs: seq<Output>) {
    && |words| == 2 + 2 * |inputs| + 4 * |outputs|
    && PairAt(words, 0, sender)
    && (forall i | 0 <= i < |inputs| :: PairAt(words, 2 + 2 * i, inputs[i]))
    && (forall i | 0 <= i < |outputs| :: PairAt(words, 2 + 2 * |inputs| + 2 * i, outputs[i].owner))
    && (forall i | 0 <= i < |outputs| :: PairAt(words, 2 + 2 * |inputs| + 2 * |outputs| + 2 * i, outputs[i].secret))
  }

  /** Pairs flattened into the middle of an array are found at their offsets, reduced. */
  lemma FlattenedReads(before: seq<int>, pairs: seq<(int, int)>, after: seq<int>, i: nat)
    requires i < |pairs|
    ensures PairAt(ReduceAll(before + Flatten(pairs) + after), |before| + 2 * i, pairs[i])
  {
    var words := before + Flatten(pairs) + after;
    assert words[|before| + 2 * i] == Flatten(pairs)[2 * i];
    assert words[|before| + 2 * i + 1] == Flatten(pairs)[2 * i + 1];
  }

  lemma AuditMessageReads(sender: (int, int), inputs: seq<(int, int)>, outputs: seq<Output>)
    ensures AuditReads(ReduceAll(AuditMessage(sender, inputs, outputs)), sender, inputs, outputs)
  {
    var m := AuditMessage(sender, inputs, outputs);
    var s, a, o, b := [sender.0, sender.1], Flatten(inputs), Flatten(Owners(outputs)), Flatten(Secrets(outputs));
    assert m == s + a + (o + b) && m == s + a + o + b && m == s + a + o + b + [];
    forall i | 0 <= i < |inputs|
      ensures PairAt(ReduceAll(m), 2 + 2 * i, inputs[i])
    {
      FlattenedReads(s, inputs, o + b, i);
    }
    forall i | 0 <= i < |outputs|
      ensures PairAt(ReduceAll(m), 2 + 2 * |inputs| + 2 * i, outputs[i].owner)
      ensures PairAt(ReduceAll(m), 2 + 2 * |inputs| + 2 * |outputs| + 2 * i, outputs[i].secret)
    {
      FlattenedReads(s + a, Owners(outputs), b, i);
      FlattenedReads(s + a + o, Secrets(outputs), [], i);
    }
  }

  /** The public signals a proof exposes, in the order of the circuit's outputs. */
  function PublicSignals(ephemeral: (int, int), blob: seq<int>, audit: seq<int>, others: seq<int>): seq<int> {
    [ephemeral.0, ephemeral.1] + blob + audit + others
  }

  lemma PublicSignalSlices(ephemeral: (int, int), blob: seq<int>, audit: seq<int>, others: seq<int>, n: nat)
    requires |blob| == 4 * n && |audit| == 6 * n + 4
    ensures var signals := PublicSignals(ephemeral, blob, audit, others);
            && |signals| == 2 + 4 * n + (6 * n + 4) + |others|
            && signals[..2] == [ephemeral.0, ephemeral.1]
            && signals[2..2 + 4 * n] == blob
            && signals[2 + 4 * n..2 + 4 * n + (6 * n + 4)] == audit
            && signals[2 + 4 * n + (6 * n + 4)..] == others
  {
  }

  /** What the authority makes of its ciphertext. */
  predicate AuthorityReads(p: Permutation, h: Hash, audit: seq<int>, auditKey: seq<int>, nonce: int,
                           sender: (int, int), inputs: seq<(int, int)>, outputs: seq<Output>) {
    var words := Decrypt(p, audit, auditKey, nonce, 2 + 2 * |inputs| + 4 * |outputs|);
    && words.Ok? && BothRead(p, h, audit, auditKey, nonce, words.value)
    && AuditReads(words.value, sender, inputs, outputs)
  }

  lemma AuthorityDecrypts(p: Permutation, h: Hash, auditKey: seq<int>, nonce: int,
                          sender: (int, int), inputs: seq<(int, int)>, outputs: seq<Output>)
    requires Refines(Total(h), p)
    requires Encrypt(p, AuditMessage(sender, inputs, outputs), auditKey, nonce).Ok?
    ensures AuthorityReads(p, h, Encrypt(p, AuditMessage(sender, inputs, outputs), auditKey, nonce).value,
                           auditKey, nonce, sender, inputs, outputs)
  {
    var m := AuditMessage(sender, inputs, outputs);
    RoundTrip(p, m, auditKey, nonce);
    ReadsWhatGoReads(p, h, Encrypt(p, m, auditKey, nonce).value, auditKey, nonce, |m|);
    AuditMessageReads(sender, inputs, outputs);
  }

  lemma AuditLength(p: Permutation, auditKey: seq<int>, nonce: int,
                    sender: (int, int), inputs: seq<(int, int)>, outputs: seq<Output>)
    requires |inputs| == |outputs|
    requires Encrypt(p, AuditMessage(sender, inputs, outputs), auditKey, nonce).Ok?
    ensures |Encrypt(p, AuditMessage(sender, inputs, outputs), auditKey, nonce).value| == 6 * |outputs| + 4
  {
    EncryptedLength(p, AuditMessage(sender, inputs, outputs), auditKey, nonce);
    assert (2 + 6 * |outputs|) % 3 == 2;
  }

  /** The signals between 2 and 2 + 4n, whatever surrounds them, give every receiver its pair. */
  lemma ReceiversFindTheirPairs(p: Permutation, h: Hash, ephemeral: (int, int), outputs: seq<Output>, nonce: int,
                                blob: seq<int>, audit: seq<int>, others: seq<int>)
    requires Refines(Total(h), p)
    requires EncryptOutputs(p, outputs, nonce) == Ok(blob)
    ensures |PublicSignals(ephemeral, blob, audit, others)| >= 2 + 4 * |outputs|
    ensures PublicSignals(ephemeral, blob, audit, others)[..2] == [ephemeral.0, ephemeral.1]
    ensures AllReceiversRead(p, h, PublicSignals(ephemeral, blob, audit, others)[2..2 + 4 * |outputs|], outputs, nonce)
  {
    SlicesDecrypt(p, h, outputs, nonce);
    assert PublicSignals(ephemeral, blob, audit, others)[2..2 + 4 * |outputs|] == blob;
  }

  /** With as many outputs as inputs, the authority's ciphertext is the next 6n + 4 signals, and it
      decrypts to every secret and owner of the transfer. */
  lemma AuthorityFindsEverything(p: Permutation, h: Hash, ephemeral: (int, int), outputs: seq<Output>, sender: (int, int),
                                 inputs: seq<(int, int)>, auditKey: seq<int>, nonce: int,
                                 blob: seq<int>, audit: seq<int>, others: seq<int>)
    requires Refines(Total(h), p)
    requires |inputs| == |outputs| && |blob| == 4 * |outputs|
    requires Encrypt(p, AuditMessage(sender, inputs, outputs), auditKey, nonce) == Ok(audit)
    ensures var n, signals := |outputs|, PublicSignals(ephemeral, blob, audit, others);
            && |signals| == 2 + 4 * n + (6 * n + 4) + |others|
            && AuthorityReads(p, h, signals[2 + 4 * n..2 + 4 * n + (6 * n + 4)], auditKey, nonce, sender, inputs, outputs)
  {
    AuthorityDecrypts(p, h, auditKey, nonce, sender, inputs, outputs);
    AuditLength(p, auditKey, nonce, sender, inputs, outputs);
    PublicSignalSlices(ephemeral, blob, audit, others, |outputs|);
  }
}
