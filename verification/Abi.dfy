// The head/tail encoding of the Solidity Contract ABI Specification, section
// "Formal Specification of the Encoding", and a decoder for it.
//
// Payloads are sequences of 256-bit words here; `AbiBytes` writes them out as bytes.
module Abi {
  import opened Prelude

  datatype Type =
    | Uint256
    | FixedArray(elem: Type, n: nat)
    | DynamicArray(elem: Type)
    | Tuple(items: seq<Type>)

  datatype Value = Num(n: int) | List(items: seq<Value>)

  predicate Dynamic(t: Type) {
    match t
    case Uint256 => false
    case FixedArray(elem, _) => Dynamic(elem)
    case DynamicArray(_) => true
    case Tuple(items) => exists i | 0 <= i < |items| :: Dynamic(items[i])
  }

  function Repeat(t: Type, n: nat): (ts: seq<Type>)
    ensures |ts| == n && forall i | 0 <= i < n :: ts[i] == t
  {
    seq(n, _ => t)
  }

  /** The types of the components that a value of type `t` with `n` components has. */
  function Components(t: Type, n: nat): seq<Type>
    requires t.Tuple? ==> n == |t.items|
  {
    match t
    case Uint256 => []
    case FixedArray(elem, _) => Repeat(elem, n)
    case DynamicArray(elem) => Repeat(elem, n)
    case Tuple(items) => items
  }

  predicate Conforms(t: Type, v: Value)
    decreases v
  {
    match t
    case Uint256 => v.Num? && v.n >= 0
    case FixedArray(elem, n) => v.List? && |v.items| == n && forall i | 0 <= i < n :: Conforms(elem, v.items[i])
    case DynamicArray(elem) => v.List? && forall i | 0 <= i < |v.items| :: Conforms(elem, v.items[i])
    case Tuple(items) => v.List? && |v.items| == |items| && forall i | 0 <= i < |items| :: Conforms(items[i], v.items[i])
  }

  predicate AllConform(ts: seq<Type>, vs: seq<Value>) {
    |ts| == |vs| && forall i | 0 <= i < |ts| :: Conforms(ts[i], vs[i])
  }

  // ---------------------------------------------------------------------------
  // Sizes
  // ---------------------------------------------------------------------------

  /** The words of a value of a static type. */
  function StaticWords(t: Type): nat
    decreases t, 0
  {
    match t
    case Uint256 => 1
    case FixedArray(elem, n) => RepeatedWords(elem, n)
    case DynamicArray(_) => 0
    case Tuple(items) => HeadWords(items)
  }

  function RepeatedWords(t: Type, n: nat): nat
    decreases t, n + 2
  {
    if n == 0 then 0 else HeadSize(t) + RepeatedWords(t, n - 1)
  }

  /** What a component occupies in the head: itself when static, an offset when dynamic. */
  function HeadSize(t: Type): nat
    decreases t, 1
  {
    if Dynamic(t) then 1 else StaticWords(t)
  }

  function HeadWords(ts: seq<Type>): nat
    decreases ts, 0
  {
    if ts == [] then 0 else HeadSize(ts[0]) + HeadWords(ts[1..])
  }

  lemma {:induction false} RepeatedHeads(t: Type, n: nat)
    ensures HeadWords(Repeat(t, n)) == RepeatedWords(t, n)
    decreases n
  {
    if n > 0 {
      assert Repeat(t, n)[1..] == Repeat(t, n - 1);
      RepeatedHeads(t, n - 1);
    }
  }

  // ---------------------------------------------------------------------------
  // Encoding
  // ---------------------------------------------------------------------------

  function Encode(t: Type, v: Value): seq<int>
    requires Conforms(t, v)
    decreases v, 0
  {
    match t
    case Uint256 => [v.n]
    case DynamicArray(_) => [|v.items|] + EncodeAll(Components(t, |v.items|), v.items)
    case _ => EncodeAll(Components(t, |v.items|), v.items)
  }

  function EncodeAll(ts: seq<Type>, vs: seq<Value>): seq<int>
    requires AllConform(ts, vs)
    decreases vs, 1
  {
    Heads(ts, vs, HeadWords(ts)) + Tails(ts, vs)
  }

  /** The heads; the next tail starts at word `at`, and offsets count bytes. */
  function Heads(ts: seq<Type>, vs: seq<Value>, at: nat): seq<int>
    requires AllConform(ts, vs)
    decreases vs, 0
  {
    if ts == [] then []
    else if Dynamic(ts[0]) then [32 * at] + Heads(ts[1..], vs[1..], at + |Encode(ts[0], vs[0])|)
    else Encode(ts[0], vs[0]) + Heads(ts[1..], vs[1..], at)
  }

  function Tails(ts: seq<Type>, vs: seq<Value>): seq<int>
    requires AllConform(ts, vs)
    decreases vs, 0
  {
    if ts == [] then []
    else (if Dynamic(ts[0]) then Encode(ts[0], vs[0]) else []) + Tails(ts[1..], vs[1..])
  }

  // ---------------------------------------------------------------------------
  // Decoding
  // ---------------------------------------------------------------------------

  function Decode(t: Type, data: seq<int>): Option<Value>
    decreases t
  {
    match t
    case Uint256 => if data == [] then None else Some(Num(data[0]))
    case FixedArray(_, n) => AsList(DecodeAll(t, Components(t, n), data, 0))
    case DynamicArray(_) =>
      if data == [] || data[0] < 0 then None
      else AsList(DecodeAll(t, Components(t, data[0]), data[1..], 0))
    case Tuple(items) => AsList(DecodeAll(t, items, data, 0))
  }

  function AsList(vs: Option<seq<Value>>): Option<Value> {
    match vs
    case None => None
    case Some(items) => Some(List(items))
  }

  /** The word where a component is to be read: in place, or where its offset points. */
  function StartOf(t: Type, data: seq<int>, at: nat): nat {
    if !Dynamic(t) then at else if at < |data| && data[at] >= 0 then data[at] / 32 else |data| + 1
  }

  /** Read components of `parent` whose heads start at word `at` of `data`. */
  function DecodeAll(parent: Type, ts: seq<Type>, data: seq<int>, at: nat): Option<seq<Value>>
    requires forall i | 0 <= i < |ts| :: ts[i] < parent
    decreases parent, |ts|
  {
    if ts == [] then Some([])
    else
      var start := StartOf(ts[0], data, at);
      if start > |data| then None else
        match Decode(ts[0], data[start..])
        case None => None
        case Some(v) =>
          match DecodeAll(parent, ts[1..], data, at + HeadSize(ts[0]))
          case None => None
          case Some(vs) => Some([v] + vs)
  }

  // ---------------------------------------------------------------------------
  // Round trip
  // ---------------------------------------------------------------------------

  lemma {:induction false} HeadsLength(ts: seq<Type>, vs: seq<Value>, at: nat)
    requires AllConform(ts, vs)
    ensures |Heads(ts, vs, at)| == HeadWords(ts)
    decreases vs, 0
  {
    if ts != [] {
      if Dynamic(ts[0]) {
        HeadsLength(ts[1..], vs[1..], at + |Encode(ts[0], vs[0])|);
      } else {
        StaticLength(ts[0], vs[0]);
        HeadsLength(ts[1..], vs[1..], at);
      }
    }
  }

  lemma {:induction false} NoTails(ts: seq<Type>, vs: seq<Value>)
    requires AllConform(ts, vs) && forall i | 0 <= i < |ts| :: !Dynamic(ts[i])
    ensures Tails(ts, vs) == []
    decreases |ts|
  {
    if ts != [] {
      NoTails(ts[1..], vs[1..]);
    }
  }

  lemma {:induction false} StaticLength(t: Type, v: Value)
    requires Conforms(t, v) && !Dynamic(t)
    ensures |Encode(t, v)| == StaticWords(t)
    decreases v, 0
  {
    if !t.Uint256? {
      var ts := Components(t, |v.items|);
      HeadsLength(ts, v.items, HeadWords(ts));
      NoTails(ts, v.items);
      if t.FixedArray? {
        RepeatedHeads(t.elem, t.n);
      }
    }
  }

  predicate Holds(data: seq<int>, at: nat, words: seq<int>) {
    at + |words| <= |data| && data[at..at + |words|] == words
  }

  lemma HoldsParts(data: seq<int>, at: nat, a: seq<int>, b: seq<int>)
    requires Holds(data, at, a + b)
    ensures Holds(data, at, a) && Holds(data, at + |a|, b)
  {
    var words := data[at..at + |a| + |b|];
    assert words[..|a|] == data[at..at + |a|] && words[|a|..] == data[at + |a|..at + |a| + |b|];
    assert (a + b)[..|a|] == a && (a + b)[|a|..] == b;
  }

  lemma HoldsFrom(data: seq<int>, at: nat, words: seq<int>)
    requires Holds(data, at, words)
    ensures data[at..] == words + data[at + |words|..]
  {
    assert data[at..] == data[at..at + |words|] + data[at + |words|..];
  }

  lemma HoldsConcat(a: seq<int>, b: seq<int>, rest: seq<int>)
    ensures Holds(a + b + rest, 0, a) && Holds(a + b + rest, |a|, b)
  {
  }

  /** Where the tail after a component's is written. */
  function NextTail(t: Type, v: Value, tail: nat): nat
    requires Conforms(t, v)
  {
    if Dynamic(t) then tail + |Encode(t, v)| else tail
  }

  lemma DecodeAllStep(parent: Type, ts: seq<Type>, vs: seq<Value>, data: seq<int>, at: nat)
    requires forall i | 0 <= i < |ts| :: ts[i] < parent
    requires ts != [] && vs != [] && StartOf(ts[0], data, at) <= |data|
    requires Decode(ts[0], data[StartOf(ts[0], data, at)..]) == Some(vs[0])
    requires DecodeAll(parent, ts[1..], data, at + HeadSize(ts[0])) == Some(vs[1..])
    ensures DecodeAll(parent, ts, data, at) == Some(vs)
  {
    assert vs == [vs[0]] + vs[1..];
  }

  /** Components whose heads and tails lie where the encoding puts them are read back. */
  lemma {:induction false} ReadsBackAll(parent: Type, ts: seq<Type>, vs: seq<Value>, data: seq<int>, at: nat, tail: nat)
    requires forall i | 0 <= i < |ts| :: ts[i] < parent
    requires AllConform(ts, vs)
    requires Holds(data, at, Heads(ts, vs, tail)) && Holds(data, tail, Tails(ts, vs))
    ensures DecodeAll(parent, ts, data, at) == Some(vs)
    decreases vs, 0
  {
    if ts != [] {
      var start := StartOf(ts[0], data, at);
      assert start <= |data| && Decode(ts[0], data[start..]) == Some(vs[0]) by {
        FirstComponent(ts, vs, data, at, tail);
        ReadsInPlace(ts[0], vs[0], data, start);
      }
      assert DecodeAll(parent, ts[1..], data, at + HeadSize(ts[0])) == Some(vs[1..]) by {
        FirstComponent(ts, vs, data, at, tail);
        ReadsBackAll(parent, ts[1..], vs[1..], data, at + HeadSize(ts[0]), NextTail(ts[0], vs[0], tail));
      }
      DecodeAllStep(parent, ts, vs, data, at);
    }
  }

  /** A dynamic first component lies where its offset points, and the others follow. */
  lemma FirstDynamic(data: seq<int>, at: nat, tail: nat, words: seq<int>, heads: seq<int>, tails: seq<int>)
    requires Holds(data, at, [32 * tail] + heads) && Holds(data, tail, words + tails)
    ensures at < |data| && data[at] == 32 * tail
    ensures Holds(data, tail, words) && Holds(data, at + 1, heads) && Holds(data, tail + |words|, tails)
  {
    HoldsParts(data, at, [32 * tail], heads);
    HoldsParts(data, tail, words, tails);
    assert data[at] == data[at..at + 1][0];
  }

  /** Where the first component is found, and where the heads and tails of the others are. */
  lemma FirstComponent(ts: seq<Type>, vs: seq<Value>, data: seq<int>, at: nat, tail: nat)
    requires ts != [] && AllConform(ts, vs)
    requires Holds(data, at, Heads(ts, vs, tail)) && Holds(data, tail, Tails(ts, vs))
    ensures Holds(data, StartOf(ts[0], data, at), Encode(ts[0], vs[0]))
    ensures Holds(data, at + HeadSize(ts[0]), Heads(ts[1..], vs[1..], NextTail(ts[0], vs[0], tail)))
    ensures Holds(data, NextTail(ts[0], vs[0], tail), Tails(ts[1..], vs[1..]))
  {
    var words := Encode(ts[0], vs[0]);
    var heads := Heads(ts[1..], vs[1..], NextTail(ts[0], vs[0], tail));
    var tails := Tails(ts[1..], vs[1..]);
    if Dynamic(ts[0]) {
      assert Heads(ts, vs, tail) == [32 * tail] + heads && Tails(ts, vs) == words + tails;
      FirstDynamic(data, at, tail, words, heads, tails);
    } else {
      assert Heads(ts, vs, tail) == words + heads && Tails(ts, vs) == [] + tails == tails;
      HoldsParts(data, at, words, heads);
      StaticLength(ts[0], vs[0]);
    }
  }

  lemma {:induction false} ReadsInPlace(t: Type, v: Value, data: seq<int>, start: nat)
    requires Conforms(t, v) && Holds(data, start, Encode(t, v))
    ensures Decode(t, data[start..]) == Some(v)
    decreases v, 2
  {
    HoldsFrom(data, start, Encode(t, v));
    ReadsBack(t, v, data[start + |Encode(t, v)|..]);
  }

  /** Decoding gives back every encoded value, whatever follows it in the payload. */
  lemma {:induction false} ReadsBack(t: Type, v: Value, rest: seq<int>)
    requires Conforms(t, v)
    ensures Decode(t, Encode(t, v) + rest) == Some(v)
    decreases v, 1
  {
    if !t.Uint256? {
      var ts := Components(t, |v.items|);
      var head, tails := Heads(ts, v.items, HeadWords(ts)), Tails(ts, v.items);
      var data := head + tails + rest;
      HeadsLength(ts, v.items, HeadWords(ts));
      HoldsConcat(head, tails, rest);
      ReadsBackAll(t, ts, v.items, data, 0, |head|);
      if t.DynamicArray? {
        assert ([|v.items|] + (head + tails) + rest)[1..] == data;
      }
    }
  }

  lemma ReadsItself(t: Type, v: Value)
    requires Conforms(t, v)
    ensures Decode(t, Encode(t, v)) == Some(v)
  {
    ReadsBack(t, v, []);
    assert Encode(t, v) + [] == Encode(t, v);
  }

  /** The encoding of a type is injective, even with different trailing words. */
  lemma EncodingInjective(t: Type, v: Value, w: Value, rest: seq<int>, rest': seq<int>)
    requires Conforms(t, v) && Conforms(t, w)
    requires Encode(t, v) + rest == Encode(t, w) + rest'
    ensures v == w
  {
    ReadsBack(t, v, rest);
    ReadsBack(t, w, rest');
  }
}
