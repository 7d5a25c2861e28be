// The bit codecs of both libraries, proved against packing and unpacking.
module BitCodec {
  import opened Prelude
  import opened Bits

  datatype CodecError = BitLength | NotANumber | ChunkTooLong

  lemma OneMore<T>(s: seq<T>, n: nat)
    requires n < |s|
    ensures s[..n] + [s[n]] == s[..n + 1]
  {
  }

  // ---------------------------------------------------------------------------
  // Go
  // ---------------------------------------------------------------------------

  method GoBytesToBits(data: seq<Byte>) returns (bits: array<Byte>)
    ensures fresh(bits) && bits[..] == Unpack(data)
  {
    ghost var unpacked := Unpack(data);
    bits := new Byte[|data| * 8];
    for i := 0 to |data|
      invariant bits[..8 * i] == unpacked[..8 * i]
    {
      for j := 0 to 8
        invariant bits[..8 * i + j] == unpacked[..8 * i + j]
      {
        UnpackAt(data, i, j);
        OneMore(unpacked, 8 * i + j);
        bits[i * 8 + j] := Digit(data[i], j);
        assert bits[..8 * i + j + 1] == bits[..8 * i + j] + [bits[8 * i + j]];
      }
    }
    assert bits[..8 * |data|] == bits[..];
  }

  /** A byte shifted left loses what leaves the byte. */
  function ShiftLeft(b: Byte, j: nat): Byte {
    b * Pow2(j) % 256
  }

  /** The byte that eight shifted and or-ed inputs make, whatever the inputs. */
  function OrFold(bits: seq<Byte>): Byte {
    if bits == [] then 0 else
      var b, c := OrFold(bits[..|bits| - 1]), ShiftLeft(bits[|bits| - 1], |bits| - 1);
      Pow2Byte();
      OrBound(b, c, 8);
      Or(b, c)
  }

  lemma ShiftedBit(bit: Bit, k: nat)
    requires k < 8
    ensures ShiftLeft(bit, k) == bit * Pow2(k)
  {
    Pow2Byte();
    Pow2Sum(k, 8 - k);
    assert Pow2(8 - k) == 2 * Pow2(7 - k);
    assert Pow2(k) * Pow2(8 - k) >= Pow2(k) * 2;
  }

  lemma ShareBelow(p: nat, q: nat, n: nat)
    requires n < q
    ensures p * n + p <= p * q
  {
    assert p * (n + 1) <= p * q;
  }

  lemma Spread(p: nat, q: nat, n: nat, high: nat)
    ensures (n + q * high) * p == p * n + (p * q) * high
  {
    MulAssociates(p, q, high);
  }

  lemma ShiftedValue(n: nat, j: nat, high: nat)
    requires j <= 8 && n < Pow2(8 - j)
    ensures (n + Pow2(8 - j) * high) * Pow2(j) % 256 == Pow2(j) * n
  {
    var p, q := Pow2(j), Pow2(8 - j);
    assert p * q == 256 by {
      Pow2Byte();
      Pow2Sum(j, 8 - j);
    }
    ShareBelow(p, q, n);
    Spread(p, q, n, high);
    Remainder(p * n, high);
  }

  lemma Remainder(r: nat, k: nat)
    requires r < 256
    ensures (r + 256 * k) % 256 == r
  {
  }

  /** Bit for bit, a shift to the left moves all digits up and drops those that leave the byte. */
  lemma ShiftLeftBits(b: Byte, j: nat)
    requires j <= 8
    ensures BitsOf(ShiftLeft(b, j), BYTE_BITS) == Zeros(j) + BitsOf(b, BYTE_BITS)[..8 - j]
  {
    var low := BitsOf(b, 8 - j);
    var shifted := Zeros(j) + low;
    BitsOfSplit(b, 8 - j, j);
    BitsOfModulo(b, 8 - j);
    BitValueBound(low);
    ShiftedValue(BitValue(low), j, Shr(b, 8 - j));
    BitValueAppend(Zeros(j), low);
    BitValueZeros(j);
    BitsOfValue(shifted);
  }

  /** On bits, or-ing shifted digits is summing weighted digits. */
  lemma {:induction false} OrFoldIsValue(bits: seq<Byte>)
    requires |bits| <= 8 && AreBits(bits)
    ensures OrFold(bits) == BitValue(bits)
    decreases |bits|
  {
    if bits != [] {
      var k := |bits| - 1;
      var init, last := bits[..k], bits[k];
      OrFoldIsValue(init);
      BitValueBound(init);
      assert OrFold(bits) == Or(BitValue(init), last * Pow2(k)) by {
        ShiftedBit(last, k);
      }
      OrAbove(BitValue(init), last, k);
      assert BitValue(bits) == BitValue(init) + Pow2(k) * last by {
        assert bits == init + [last];
        BitValueAppend(init, [last]);
        assert BitValue([last]) == last;
      }
      assert last == 0 || last == 1;
    }
  }

  method GoBitsToBytes(bits: seq<Byte>) returns (r: Result<seq<Byte>, CodecError>)
    ensures r.Err? <==> |bits| % 8 != 0
    ensures r.Ok? ==> |r.value| == |bits| / 8
    ensures r.Ok? ==> forall k | 0 <= k < |r.value| :: r.value[k] == OrFold(bits[8 * k..8 * k + 8])
    ensures r.Ok? && AreBits(bits) ==> r.value == Pack(bits)
  {
    if |bits| % 8 != 0 {
      return Err(BitLength);
    }
    var data := new Byte[|bits| / 8];
    var i := 0;
    while i < |bits|
      invariant 0 <= i <= |bits| && i % 8 == 0
      invariant forall k | 0 <= k < i / 8 :: data[k] == OrFold(bits[8 * k..8 * k + 8])
    {
      ghost var block := bits[i..i + 8];
      var b: Byte := 0;
      assert block[..0] == [];
      for j := 0 to 8
        invariant b == OrFold(block[..j])
      {
        assert block[..j + 1][..j] == block[..j];
        assert OrFold(block[..j + 1]) == Or(b, ShiftLeft(bits[i + j], j));
        b := Or(b, ShiftLeft(bits[i + j], j));
      }
      assert block[..8] == block;
      data[i / 8] := b;
      i := i + 8;
    }
    if AreBits(bits) {
      forall k | 0 <= k < |bits| / 8
        ensures data[k] == Pack(bits)[k]
      {
        OrFoldIsValue(bits[8 * k..8 * k + 8]);
        PackAt(bits, k);
      }
    }
    r := Ok(data[..]);
  }

  // ---------------------------------------------------------------------------
  // JavaScript
  // ---------------------------------------------------------------------------

  method JsBytesToBits(byteArray: seq<Byte>) returns (bitArray: seq<Bit>)
    ensures bitArray == Unpack(byteArray)
  {
    ghost var unpacked := Unpack(byteArray);
    bitArray := [];
    for k := 0 to |byteArray|
      invariant bitArray == unpacked[..8 * k]
    {
      for i := 0 to 8
        invariant bitArray == unpacked[..8 * k + i]
      {
        UnpackAt(byteArray, k, i);
        OneMore(unpacked, 8 * k + i);
        bitArray := bitArray + [Digit(byteArray[k], i)];
      }
    }
  }

  /** Defined on arbitrary numbers, as the original is: they are weighted and summed. */
  method JsBitsToBytes(bitArray: seq<int>) returns (bytes: seq<int>)
    ensures bytes == Pack(bitArray)
  {
    bytes := [];
    var i := 0;
    while i < |bitArray|
      invariant 0 <= i && |bytes| == i / 8 && i % 8 == 0 && |bytes| <= |Pack(bitArray)|
      invariant bytes == Pack(bitArray)[..|bytes|]
      invariant i >= |bitArray| ==> |bytes| == |Pack(bitArray)|
    {
      var byte := 0;
      var j := 0;
      ghost var block := Block(bitArray, i / 8);
      assert block[..0] == [];
      while j < 8 && i + j < |bitArray|
        invariant 0 <= j <= |block|
        invariant byte == BitValue(block[..j])
      {
        assert block[..j + 1] == block[..j] + [block[j]];
        BitValueAppend(block[..j], [block[j]]);
        assert BitValue([block[j]]) == block[j] + 2 * BitValue([]);
        byte := byte + bitArray[i + j] * Pow2(j);
        j := j + 1;
      }
      assert block[..j] == block;
      PackAt(bitArray, i / 8);
      bytes := bytes + [byte];
      i := i + 8;
    }
  }

  // ---------------------------------------------------------------------------
  // The two libraries together
  // ---------------------------------------------------------------------------

  lemma FillLength(n: nat)
    ensures 0 <= 8 * ((n + 7) / 8) - n < 8
    ensures 8 * ((n + 7) / 8) == n <==> n % 8 == 0
  {
  }

  /** Unpacking packed bits gives them back exactly when they fill whole bytes, which is when Go accepts them. */
  lemma BitRoundTrip(bits: seq<int>)
    requires AreBits(bits)
    ensures forall i | 0 <= i < |Pack(bits)| :: 0 <= Pack(bits)[i] < 256
    ensures Unpack(Pack(bits)) == bits <==> |bits| % 8 == 0
    ensures BitValue(Unpack(Pack(bits))) == BitValue(bits)
  {
    UnpackPack(bits);
    FillLength(|bits|);
    var bytes: seq<Byte> := Pack(bits);
    if |bits| % 8 == 0 {
      assert Zeros(8 * |bytes| - |bits|) == [];
    } else {
      assert |Unpack(bytes)| != |bits|;
    }
    UnpackValue(bytes);
    PackValue(bits);
  }
}
