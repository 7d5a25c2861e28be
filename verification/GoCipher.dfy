// The Go cipher on its heap: every number is a cell reached by reference,
// and the library overwrites some of them in place.
//
// No method here has a `modifies` clause, except the one that models the write
// itself, so each contract says that no cell the caller can reach is changed.
module GoCipher {
  import opened Prelude
  import opened Field
  import opened Sponge

  // big.Int
  class Cell {
    var v: int

    constructor (v: int)
      ensures this.v == v
    {
      this.v := v;
    }
  }

  function Values(cells: seq<Cell>): (vs: seq<int>)
    reads cells
    ensures |vs| == |cells| && forall i | 0 <= i < |cells| :: vs[i] == cells[i].v
  {
    seq(|cells|, i requires 0 <= i < |cells| reads cells => cells[i].v)
  }

  lemma ValuesPrefix(cells: seq<Cell>, n: nat)
    requires n <= |cells|
    ensures Values(cells[..n]) == Values(cells)[..n]
  {
  }

  function QuadOf(state: seq<Cell>): Quad
    requires |state| == 4
    reads state
  {
    Quad(state[0].v, state[1].v, state[2].v, state[3].v)
  }

  predicate Distinct(cells: seq<Cell>) {
    forall i, j | 0 <= i < j < |cells| :: cells[i] != cells[j]
  }

  /** `poseidon.HashEx(state, 4)`: reads its inputs and allocates its outputs. */
  method HashEx(p: Permutation, state: seq<Cell>) returns (out: Option<seq<Cell>>)
    requires |state| == 4
    ensures out.None? <==> p(QuadOf(state)).None?
    ensures out.Some? ==>
              && |out.value| == 4 && Distinct(out.value)
              && (forall i | 0 <= i < 4 :: fresh(out.value[i]))
              && p(QuadOf(state)) == Some(QuadOf(out.value))
  {
    match p(QuadOf(state)) {
      case None => out := None;
      case Some(t) =>
        var c0 := new Cell(t.s0);
        var c1 := new Cell(t.s1);
        var c2 := new Cell(t.s2);
        var c3 := new Cell(t.s3);
        out := Some([c0, c1, c2, c3]);
    }
  }

  /** `Element.ToBigIntRegular`: writes into the given cell and returns that very cell.
      `hashed` are the cells of the latest hash output: no other cell may be written. */
  method ToBigIntRegular(e: Element, target: Cell, ghost hashed: seq<Cell>) returns (r: Cell)
    requires target in hashed
    modifies target
    ensures target.v == e && r == target
  {
    target.v := e;
    r := target;
  }

  /** The outcome `r` of a call holds the words of `spec` in distinct cells. */
  predicate Holds(r: Result<seq<Cell>, CipherError>, spec: Outcome)
    reads if r.Ok? then r.value else []
  {
    match r
    case Err(e) => spec == Err(e)
    case Ok(cells) => spec == Ok(Values(cells)) && Distinct(cells)
  }

  /** The first `n` slots hold the words `out`, in distinct cells taken from `owned`. */
  ghost predicate Filled(slots: array<Cell?>, n: nat, out: seq<int>, owned: set<Cell>)
    requires n <= slots.Length
    reads slots, owned
  {
    && |out| == n
    && (forall k | 0 <= k < n :: slots[k] in owned && slots[k].v == out[k])
    && (forall j, k | 0 <= j < k < n :: slots[j] != slots[k])
  }

  /** Store a cell that is not in use yet in the next free slot. */
  method Record(slots: array<Cell?>, n: nat, c: Cell, ghost out: seq<int>, ghost owned: set<Cell>)
    requires n < slots.Length && Filled(slots, n, out, owned) && c !in owned
    modifies slots
    ensures Filled(slots, n + 1, out + [c.v], owned + {c})
  {
    slots[n] := c;
  }

  /** `slots[:n]`, once those slots are filled. */
  method Slice(slots: array<Cell?>, n: nat, ghost out: seq<int>, ghost owned: set<Cell>) returns (cells: seq<Cell>)
    requires n <= slots.Length && Filled(slots, n, out, owned)
    ensures Values(cells) == out && Distinct(cells)
    ensures forall c | c in cells :: c in owned
  {
    cells := slots[..n];
  }

  /** One encryption round: hash, three in-place writes into the cells of that hash output,
      and those cells recorded as a ciphertext block. */
  method EncryptRound(p: Permutation, state: seq<Cell>, message: seq<Cell>, cipherText: array<Cell?>, i: nat,
                      ghost out: seq<int>, ghost owned: set<Cell>)
      returns (next: Option<seq<Cell>>, ghost owned': set<Cell>)
    requires |state| == 4 && 3 * i + 3 <= |message| && cipherText.Length == |message| + 1
    requires Filled(cipherText, 3 * i, out, owned)
    modifies cipherText
    ensures owned <= owned' && fresh(owned' - owned)
    ensures next.None? <==> p(old(QuadOf(state))).None?
    ensures next.Some? ==>
              var u := Absorb(p(old(QuadOf(state))).value,
                              [old(message[3 * i].v), old(message[3 * i + 1].v), old(message[3 * i + 2].v)]);
              && |next.value| == 4 && QuadOf(next.value) == u
              && Filled(cipherText, 3 * i + 3, out + [u.s1, u.s2, u.s3], owned')
  {
    owned' := owned;
    next := HashEx(p, state);
    if next.Some? {
      var hashed := next.value;
      var c1 := ToBigIntRegular(Mask(message[3 * i].v, hashed[1].v), hashed[1], hashed);
      var c2 := ToBigIntRegular(Mask(message[3 * i + 1].v, hashed[2].v), hashed[2], hashed);
      var c3 := ToBigIntRegular(Mask(message[3 * i + 2].v, hashed[3].v), hashed[3], hashed);
      Record(cipherText, 3 * i, c1, out, owned);
      Record(cipherText, 3 * i + 1, c2, out + [c1.v], owned + {c1});
      Record(cipherText, 3 * i + 2, c3, out + [c1.v] + [c2.v], owned + {c1} + {c2});
      owned' := owned + {c1} + {c2} + {c3};
      ThreeMore(out, c1.v, c2.v, c3.v);
      next := Some([hashed[0], c1, c2, c3]);
    }
  }

  /** `make`, `copy` and the zero-filling loop. */
  method PadMessage(msg: seq<Cell>) returns (message: seq<Cell>)
    ensures Values(message) == Pad(Values(msg))
  {
    var length := |msg|;
    if length % 3 > 0 {
      length := length + (3 - length % 3);
    }
    var slots := new Cell?[length];
    forall k | 0 <= k < |msg| {
      slots[k] := msg[k];
    }
    for idx := |msg| to length
      invariant forall k | 0 <= k < |msg| :: slots[k] == msg[k]
      invariant forall k | |msg| <= k < idx :: slots[k] != null && slots[k].v == 0
    {
      slots[idx] := new Cell(0);
    }
    message := slots[..];
  }

  /** The loop and the final permutation, from a given initial state. */
  method EncryptPadded(p: Permutation, s: seq<Cell>, message: seq<Cell>) returns (r: Result<seq<Cell>, CipherError>)
    requires |s| == 4 && |message| % 3 == 0
    ensures Holds(r, old(Seal(p, EncryptBlocks(p, QuadOf(s), Values(message)))))
    ensures r.Ok? ==> forall c | c in r.value :: fresh(c)
  {
    var state := s;
    var cipherText := new Cell?[|message| + 1];
    var n := |message| / 3;
    var i := 0;
    ghost var words, q0 := Values(message), QuadOf(s);
    ghost var out: seq<int>, q, owned: set<Cell> := [], q0, {};
    EncryptFromEnds(p, [], q0, words);
    while i < n
      invariant 0 <= i <= n && |state| == 4
      invariant fresh(owned) && Filled(cipherText, 3 * i, out, owned)
      invariant QuadOf(state) == q
      invariant EncryptBlocks(p, q0, words) == EncryptFrom(p, out, q, words, i)
    {
      EncryptFromStep(p, out, q, words, i);
      var next;
      next, owned := EncryptRound(p, state, message, cipherText, i, out, owned);
      if next.None? {
        return Err(HashFailed);
      }
      state := next.value;
      q := QuadOf(state);
      out := out + [q.s1, q.s2, q.s3];
      i := i + 1;
    }
    EncryptFromEnds(p, out, q, words);
    assert EncryptBlocks(p, q0, words) == Some(Run(out, q));
    var hashed := HashEx(p, state);
    if hashed.None? {
      return Err(HashFailed);
    }
    state := hashed.value;
    assert state[1] !in owned;
    assert Seal(p, EncryptBlocks(p, q0, words)) == Ok(out + [state[1].v]);
    Record(cipherText, i * 3, state[1], out, owned);
    var cells := Slice(cipherText, |message| + 1, out + [state[1].v], owned + {state[1]});
    r := Ok(cells);
  }

  method PoseidonEncrypt(p: Permutation, msg: seq<Cell>, key: seq<Cell>, nonce: Cell)
      returns (r: Result<seq<Cell>, CipherError>)
    ensures Holds(r, old(Encrypt(p, Values(msg), Values(key), nonce.v)))
    ensures r.Ok? ==> forall c | c in r.value :: fresh(c)
  {
    if |key| != 2 {
      return Err(KeyLength);
    }
    if nonce.v >= TWO_128 {
      return Err(NonceTooLarge);
    }
    var message := PadMessage(msg);
    var zero := new Cell(0);
    var capacity := new Cell(nonce.v + |msg| * TWO_128);
    assert QuadOf([zero, key[0], key[1], capacity]) == InitialState(Values(key), nonce.v, |msg|);
    r := EncryptPadded(p, [zero, key[0], key[1], capacity], message);
  }

  // ---------------------------------------------------------------------------
  // Decryption
  // ---------------------------------------------------------------------------

  /** One decryption round: hash, unmask into the cells of that hash output, record those
      as message words, and repoint the state at the caller's ciphertext cells. */
  method DecryptRound(p: Permutation, state: seq<Cell>, cipherText: seq<Cell>, message: array<Cell?>, i: nat,
                      ghost out: seq<int>, ghost owned: set<Cell>)
      returns (next: Option<seq<Cell>>, ghost owned': set<Cell>)
    requires |state| == 4 && 3 * i + 3 <= message.Length && |cipherText| == message.Length + 1
    requires Filled(message, 3 * i, out, owned)
    modifies message
    ensures owned <= owned' && fresh(owned' - owned)
    ensures next.None? <==> p(old(QuadOf(state))).None?
    ensures next.Some? ==>
              var t := p(old(QuadOf(state))).value;
              var block := [old(cipherText[3 * i].v), old(cipherText[3 * i + 1].v), old(cipherText[3 * i + 2].v)];
              && |next.value| == 4 && QuadOf(next.value) == Overwrite(t, block)
              && Filled(message, 3 * i + 3, out + UnmaskBlock(t, block), owned')
  {
    owned' := owned;
    next := HashEx(p, state);
    if next.Some? {
      var hashed := next.value;
      var m1 := ToBigIntRegular(Unmask(cipherText[3 * i].v, hashed[1].v), hashed[1], hashed);
      Record(message, 3 * i, m1, out, owned);
      var m2 := ToBigIntRegular(Unmask(cipherText[3 * i + 1].v, hashed[2].v), hashed[2], hashed);
      Record(message, 3 * i + 1, m2, out + [m1.v], owned + {m1});
      var m3 := ToBigIntRegular(Unmask(cipherText[3 * i + 2].v, hashed[3].v), hashed[3], hashed);
      Record(message, 3 * i + 2, m3, out + [m1.v] + [m2.v], owned + {m1} + {m2});
      owned' := owned + {m1} + {m2} + {m3};
      ThreeMore(out, m1.v, m2.v, m3.v);
      next := Some([hashed[0], cipherText[3 * i], cipherText[3 * i + 1], cipherText[3 * i + 2]]);
    }
  }

  /** The decryption loop. */
  method DecryptBody(p: Permutation, s: seq<Cell>, cipherText: seq<Cell>, message: array<Cell?>)
      returns (last: Option<seq<Cell>>, ghost owned: set<Cell>)
    requires |s| == 4 && message.Length % 3 == 0 && |cipherText| == message.Length + 1
    modifies message
    ensures var run := old(DecryptBlocks(p, QuadOf(s), Values(cipherText)[..message.Length]));
            && fresh(owned)
            && (last.None? <==> run.None?)
            && (last.Some? ==>
                  && |last.value| == 4 && QuadOf(last.value) == run.value.state
                  && Filled(message, message.Length, run.value.out, owned))
  {
    var state := s;
    var n := message.Length;
    var i := 0;
    ghost var words, q0 := Values(cipherText)[..n], QuadOf(s);
    ghost var out: seq<int>, q := [], q0;
    owned := {};
    DecryptFromEnds(p, [], q0, words);
    while i < n / 3
      invariant 0 <= i <= n / 3 && |state| == 4
      invariant fresh(owned) && Filled(message, 3 * i, out, owned)
      invariant QuadOf(state) == q
      invariant DecryptBlocks(p, q0, words) == DecryptFrom(p, out, q, words, i)
    {
      DecryptFromStep(p, out, q, words, i);
      ghost var block := [words[3 * i], words[3 * i + 1], words[3 * i + 2]];
      var next;
      next, owned := DecryptRound(p, state, cipherText, message, i, out, owned);
      if next.None? {
        return None, owned;
      }
      out := out + UnmaskBlock(p(q).value, block);
      state := next.value;
      q := QuadOf(state);
      i := i + 1;
    }
    DecryptFromEnds(p, out, q, words);
    last := Some(state);
  }

  /** The padding check, the final permutation, the check of the last word, and `message[:length]`. */
  method CheckAndRelease(p: Permutation, message: seq<Cell>, state: seq<Cell>, last: Cell, length: int)
      returns (r: Result<seq<Cell>, CipherError>)
    requires |state| == 4 && |message| % 3 == 0 && 1 <= length <= |message| && Distinct(message)
    ensures Holds(r, old(Open(p, Some(Run(Values(message), QuadOf(state))), last.v, length)))
    ensures r.Ok? ==> forall c | c in r.value :: c in message
  {
    if length > 3 {
      match length % 3 {
        case 2 =>
          if message[|message| - 1].v != 0 {
            return Err(PaddingNotZero);
          }
        case 1 =>
          if message[|message| - 2].v != 0 || message[|message| - 1].v != 0 {
            return Err(PaddingNotZero);
          }
        case _ =>
      }
    }
    var hashed := HashEx(p, state);
    if hashed.None? {
      return Err(HashFailed);
    }
    if hashed.value[1].v != last.v {
      return Err(TagMismatch);
    }
    ValuesPrefix(message, length);
    r := Ok(message[..length]);
  }

  method PoseidonDecrypt(p: Permutation, cipherText: seq<Cell>, key: seq<Cell>, nonce: Cell, length: int)
      returns (r: Result<seq<Cell>, CipherError>)
    ensures Holds(r, old(Decrypt(p, Values(cipherText), Values(key), nonce.v, length)))
    ensures r.Ok? ==> forall c | c in r.value :: fresh(c)
  {
    if |key| != 2 {
      return Err(KeyLength);
    }
    if |cipherText| % 3 != 1 {
      return Err(CipherTextLength);
    }
    if nonce.v >= TWO_128 {
      return Err(NonceTooLarge);
    }
    if length < 1 || length > |cipherText| - 1 {
      return Err(MessageLength);
    }
    var zero := new Cell(0);
    var capacity := new Cell(nonce.v + length * TWO_128);
    assert QuadOf([zero, key[0], key[1], capacity]) == InitialState(Values(key), nonce.v, length);
    var message := new Cell?[|cipherText| - 1];
    var state, owned := DecryptBody(p, [zero, key[0], key[1], capacity], cipherText, message);
    if state.None? {
      return Err(HashFailed);
    }
    ghost var run := old(DecryptBlocks(p, InitialState(Values(key), nonce.v, length), Values(cipherText)[..|cipherText| - 1]));
    var plain := Slice(message, message.Length, run.value.out, owned);
    r := CheckAndRelease(p, plain, state.value, cipherText[|cipherText| - 1], length);
  }

  /** What the Go tests do with a message: encrypt it, decrypt the cells that came back. */
  method EncryptThenDecrypt(p: Permutation, msg: seq<Cell>, key: seq<Cell>, nonce: Cell)
      returns (r: Result<seq<Cell>, CipherError>)
    requires msg != []
    ensures old(Encrypt(p, Values(msg), Values(key), nonce.v)).Ok? ==> r.Ok? && Values(r.value) == old(ReduceAll(Values(msg)))
  {
    var c := PoseidonEncrypt(p, msg, key, nonce);
    if c.Err? {
      return c;
    }
    RoundTrip(p, Values(msg), Values(key), nonce.v);
    r := PoseidonDecrypt(p, c.value, key, nonce, |msg|);
  }
}
