// ABI payloads as bytes: every word is written out in 32 big-endian bytes.
module AbiBytes {
  import opened Prelude
  import opened Bits
  import opened Abi

  const WORD_BYTES: nat := 32

  predicate WordsFit(words: seq<int>) {
    forall k | 0 <= k < |words| :: 0 <= words[k] < Pow2(8 * WORD_BYTES)
  }

  function ToBytes(words: seq<int>): (bytes: seq<Byte>)
    requires WordsFit(words)
    ensures |bytes| == 32 * |words|
  {
    if words == [] then [] else Reversed(BytesOf(words[0], WORD_BYTES)) + ToBytes(words[1..])
  }

  function FromBytes(bytes: seq<Byte>): seq<int>
    decreases |bytes|
  {
    if |bytes| < WORD_BYTES then [] else [ByteValue(Reversed(bytes[..WORD_BYTES]))] + FromBytes(bytes[WORD_BYTES..])
  }

  /** Every word takes 32 bytes, the most significant first. */
  lemma {:induction false} WordBytes(words: seq<int>, i: nat)
    requires WordsFit(words) && i < |words|
    ensures ByteValue(Reversed(ToBytes(words)[32 * i..32 * i + 32])) == words[i]
    decreases i
  {
    var first, rest := Reversed(BytesOf(words[0], WORD_BYTES)), ToBytes(words[1..]);
    assert ToBytes(words) == first + rest;
    if i == 0 {
      assert (first + rest)[..32] == first;
      assert Reversed(first) == BytesOf(words[0], WORD_BYTES);
      ValueOfBytes(words[0], WORD_BYTES);
    } else {
      WordBytes(words[1..], i - 1);
      assert (first + rest)[32 * i..32 * i + 32] == rest[32 * (i - 1)..32 * (i - 1) + 32];
    }
  }

  lemma FirstWord(word: seq<Byte>, rest: seq<Byte>)
    requires |word| == WORD_BYTES
    ensures FromBytes(word + rest) == [ByteValue(Reversed(word))] + FromBytes(rest)
  {
    assert (word + rest)[..WORD_BYTES] == word && (word + rest)[WORD_BYTES..] == rest;
  }

  lemma {:induction false} WordsRoundTrip(words: seq<int>)
    requires WordsFit(words)
    ensures FromBytes(ToBytes(words)) == words
    decreases |words|
  {
    if words != [] {
      var first, rest := BytesOf(words[0], WORD_BYTES), ToBytes(words[1..]);
      FirstWord(Reversed(first), rest);
      assert Reversed(Reversed(first)) == first;
      ValueOfBytes(words[0], WORD_BYTES);
      WordsRoundTrip(words[1..]);
      assert words == [words[0]] + words[1..];
    }
  }

  /** Values that an encoder accepts: of the right shape, and every word within 256 bits. */
  predicate Encodable(t: Type, v: Value) {
    Conforms(t, v) && WordsFit(Encode(t, v))
  }

  function EncodeBytes(t: Type, v: Value): Option<seq<Byte>> {
    if Encodable(t, v) then Some(ToBytes(Encode(t, v))) else None
  }

  function DecodeBytes(t: Type, bytes: seq<Byte>): Option<Value> {
    if |bytes| % 32 != 0 then None else Decode(t, FromBytes(bytes))
  }

  lemma DecodesWords(t: Type, words: seq<int>)
    requires WordsFit(words)
    ensures DecodeBytes(t, ToBytes(words)) == Decode(t, words)
  {
    var bytes, n := ToBytes(words), |words|;
    assert |bytes| == 32 * n;
    assert |bytes| % 32 == 0;
    assert FromBytes(bytes) == words by { WordsRoundTrip(words); }
  }

  /** Decoding an encoded payload gives the value back. */
  lemma BytesReadBack(t: Type, v: Value)
    requires Encodable(t, v)
    ensures DecodeBytes(t, EncodeBytes(t, v).value) == Some(v)
  {
    DecodesWords(t, Encode(t, v));
    ReadsItself(t, v);
  }

  /** Different values of a type never share a payload. */
  lemma BytesInjective(t: Type, v: Value, w: Value)
    requires Encodable(t, v) && Encodable(t, w)
    requires EncodeBytes(t, v) == EncodeBytes(t, w)
    ensures v == w
  {
    BytesReadBack(t, v);
    BytesReadBack(t, w);
  }

  /** The head of the first dynamic component is the byte size of the whole head. */
  lemma {:induction false} FirstOffset(ts: seq<Type>, vs: seq<Value>, i: nat, at: nat)
    requires AllConform(ts, vs) && i < |ts|
    requires Dynamic(ts[i]) && forall k | 0 <= k < i :: !Dynamic(ts[k])
    ensures HeadWords(ts[..i]) < |Heads(ts, vs, at)|
    ensures Heads(ts, vs, at)[HeadWords(ts[..i])] == 32 * at
    decreases i
  {
    if i == 0 {
      assert ts[..0] == [];
    } else {
      StaticLength(ts[0], vs[0]);
      FirstOffset(ts[1..], vs[1..], i - 1, at);
      assert ts[..i][1..] == ts[1..][..i - 1];
    }
  }

  lemma FirstOffsetWord(items: seq<Type>, v: Value, i: nat)
    requires Encodable(Tuple(items), v) && i < |items|
    requires Dynamic(items[i]) && forall k | 0 <= k < i :: !Dynamic(items[k])
    ensures var words := FromBytes(EncodeBytes(Tuple(items), v).value);
            HeadWords(items[..i]) < |words| && words[HeadWords(items[..i])] == 32 * HeadWords(items)
  {
    var words := Encode(Tuple(items), v);
    WordsRoundTrip(words);
    var heads := Heads(items, v.items, HeadWords(items));
    assert words == EncodeAll(items, v.items) by {
      assert Components(Tuple(items), |v.items|) == items;
    }
    assert EncodeAll(items, v.items) == heads + Tails(items, v.items);
    FirstOffset(items, v.items, i, HeadWords(items));
  }
}
