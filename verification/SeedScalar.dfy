// The scalar both libraries derive from a seed of 32 bytes, clamped as section 5.1.5
// of RFC 8032 clamps a key. They accept longer seeds, and use all of them.
// The curve multiplication that follows is not modelled.
module SeedScalar {
  import opened Prelude
  import opened Bits
  import opened BitCodec

  function Masked(b: Byte, mask: Byte): (r: Byte) {
    AndBound(b, mask);
    And(b, mask)
  }

  function WithBits(b: Byte, bits: Byte): (r: Byte) {
    Pow2Byte();
    OrBound(b, bits, 8);
    Or(b, bits)
  }

  lemma {:induction false} AndBound(a: nat, b: nat)
    ensures And(a, b) <= a
    decreases a
  {
    if a != 0 && b != 0 {
      AndBound(a / 2, b / 2);
    }
  }

  /** What trimming leaves of a seed. */
  function Clamp(seed: seq<Byte>): (clamped: seq<Byte>)
    requires |seed| >= 32
    ensures |clamped| == |seed|
  {
    seed[0 := Masked(seed[0], 0xf8)][31 := WithBits(Masked(seed[31], 0x7f), 0x40)]
  }

  /** The number that the clamped seed's bits spell from the fourth on. */
  function Scalar(seed: seq<Byte>): int
    requires |seed| >= 32
  {
    BitValue(Unpack(Clamp(seed))[3..])
  }

  lemma TrailingZeros(bits: seq<int>)
    ensures BitValue(bits + [0, 0, 0]) == BitValue(bits)
  {
    BitValueAppend(bits, [0, 0, 0]);
    assert BitValue([0, 0, 0]) == 0;
  }

  method GoPublicKeyScalar(seed: array<Byte>) returns (r: Result<int, CodecError>)
    requires seed.Length >= 32
    modifies seed
    ensures seed[..] == Clamp(old(seed[..]))
    ensures r == Ok(Scalar(old(seed[..])))
  {
    var trimmed := seed;
    trimmed[0] := Masked(trimmed[0], 0xf8);
    trimmed[31] := Masked(trimmed[31], 0x7f);
    trimmed[31] := WithBits(trimmed[31], 0x40);
    assert seed[..] == Clamp(old(seed[..]));
    var bits := GoBytesToBits(trimmed[..]);
    var ssBits := bits[3..];
    TrailingZeros(ssBits);
    ssBits := ssBits + [0, 0, 0];
    assert |ssBits| == 8 * seed.Length && AreBits(ssBits);
    var ssTrimmedBytes := GoBitsToBytes(ssBits);
    PackValue(ssBits);
    match ssTrimmedBytes {
      case Err(e) => r := Err(e);
      case Ok(bytes) => r := Ok(ByteValue(bytes));
    }
  }

  method JsPublicKeyScalar(seed: array<Byte>) returns (s: int)
    requires seed.Length >= 32
    modifies seed
    ensures seed[..] == Clamp(old(seed[..]))
    ensures s == Scalar(old(seed[..]))
  {
    seed[0] := Masked(seed[0], 0xf8);
    seed[31] := Masked(seed[31], 0x7f);
    seed[31] := WithBits(seed[31], 0x40);
    assert seed[..] == Clamp(old(seed[..]));
    var trim := JsBytesToBits(seed[..]);
    trim := trim[3..];
    var keyBytes := JsBitsToBytes(trim);
    PackValue(trim);
    s := ByteValue(keyBytes);
  }

  lemma LowMaskDigits()
    ensures BitsOf(0xf8, 8) == [0, 0, 0, 1, 1, 1, 1, 1]
  {
    BitsOfSplit(0xf8, 3, 5);
    assert Shr(0xf8, 3) == 0x1f;
  }

  lemma HighMaskDigits()
    ensures BitsOf(0x7f, 8) == [1, 1, 1, 1, 1, 1, 1, 0]
  {
    BitsOfSplit(0x7f, 4, 4);
    assert Shr(0x7f, 4) == 0x7;
  }

  lemma TopBitDigits()
    ensures BitsOf(0x40, 8) == [0, 0, 0, 0, 0, 0, 1, 0]
  {
    BitsOfSplit(0x40, 4, 4);
    assert Shr(0x40, 4) == 0x4;
  }

  lemma MaskedBit(b: Byte, mask: Byte, digits: seq<Bit>, j: nat)
    requires digits == BitsOf(mask, |digits|) && j < |digits|
    ensures BitsOf(Masked(b, mask), |digits|)[j] == if digits[j] == 1 then BitsOf(b, |digits|)[j] else 0
  {
    AndBits(b, mask, |digits|, j);
  }

  lemma SetBit(b: Byte, bits: Byte, digits: seq<Bit>, j: nat)
    requires digits == BitsOf(bits, |digits|) && j < |digits|
    ensures BitsOf(WithBits(b, bits), |digits|)[j] == if digits[j] == 1 then 1 else BitsOf(b, |digits|)[j]
  {
    OrBits(b, bits, |digits|, j);
  }

  lemma FirstByteBits(b: Byte, j: nat)
    requires j < 8
    ensures BitsOf(Masked(b, 0xf8), BYTE_BITS)[j] == if j < 3 then 0 else BitsOf(b, BYTE_BITS)[j]
  {
    LowMaskDigits();
    MaskedBit(b, 0xf8, [0, 0, 0, 1, 1, 1, 1, 1], j);
  }

  lemma LastByteBits(b: Byte, j: nat)
    requires j < 8
    ensures BitsOf(WithBits(Masked(b, 0x7f), 0x40), BYTE_BITS)[j] ==
            if j == 7 then 0 else if j == 6 then 1 else BitsOf(b, BYTE_BITS)[j]
  {
    HighMaskDigits();
    TopBitDigits();
    MaskedBit(b, 0x7f, [1, 1, 1, 1, 1, 1, 1, 0], j);
    SetBit(Masked(b, 0x7f), 0x40, [0, 0, 0, 0, 0, 0, 1, 0], j);
  }

  /** Bit for bit, clamping is what RFC 8032 prescribes: the lowest three bits of the first byte and the
      highest bit of the last are cleared, the second highest of the last is set, nothing else changes. */
  lemma ClampBits(seed: seq<Byte>, k: nat)
    requires |seed| >= 32 && k < 8 * |seed|
    ensures Unpack(Clamp(seed))[k] ==
            if k < 3 || k == 255 then 0 else if k == 254 then 1 else Unpack(seed)[k]
  {
    var i, j := k / 8, k % 8;
    UnpackedBit(Clamp(seed), i, j);
    UnpackedBit(seed, i, j);
    if i == 0 {
      FirstByteBits(seed[0], j);
    } else if i == 31 {
      LastByteBits(seed[31], j);
    }
  }

  /** Eight times the scalar is the clamped seed's value. */
  lemma ScalarIsEighthOfSeed(seed: seq<Byte>)
    requires |seed| >= 32
    ensures 8 * Scalar(seed) == ByteValue(Clamp(seed))
  {
    var bits := Unpack(Clamp(seed));
    ClampBits(seed, 0);
    ClampBits(seed, 1);
    ClampBits(seed, 2);
    UnpackValue(Clamp(seed));
    assert bits == [0, 0, 0] + bits[3..];
    BitValueAppend([0, 0, 0], bits[3..]);
    assert BitValue([0, 0, 0]) == 0 && Pow2(3) == 8;
  }

  lemma TopBitValue(low: seq<int>, top: seq<int>)
    requires top == [1, 0]
    ensures BitValue(low + top) == BitValue(low) + Pow2(|low|)
  {
    BitValueAppend(low, top);
    assert BitValue(top[1..]) == 0;
    assert BitValue(top) == 1;
  }

  const SCALAR_BITS: nat := 252

  lemma TopBitRange(low: seq<int>, top: seq<int>)
    requires AreBits(low) && |low| == SCALAR_BITS - 1 && top == [1, 0]
    ensures Pow2(SCALAR_BITS - 1) <= BitValue(low + top) < Pow2(SCALAR_BITS)
  {
    TopBitValue(low, top);
    BitValueBound(low);
  }

  lemma {:induction false} UnpackFrom(bytes: seq<Byte>, n: nat)
    requires n <= |bytes|
    ensures Unpack(bytes)[8 * n..] == Unpack(bytes[n..])
    decreases n
  {
    if n > 0 {
      UnpackFrom(bytes[1..], n - 1);
      assert Unpack(bytes)[8 * n..] == Unpack(bytes[1..])[8 * (n - 1)..];
      assert bytes[1..][n - 1..] == bytes[n..];
    }
  }

  /** The bytes after the 32nd come on top of the 252 bits, one bit higher. */
  lemma ScalarSplits(seed: seq<Byte>) returns (low: seq<int>)
    requires |seed| >= 32
    ensures AreBits(low) && |low| == SCALAR_BITS - 1
    ensures Scalar(seed) == BitValue(low + [1, 0]) + Pow2(SCALAR_BITS + 1) * ByteValue(seed[32..])
  {
    var bits := Unpack(Clamp(seed));
    ClampBits(seed, 254);
    ClampBits(seed, 255);
    low := bits[3..254];
    assert bits[3..256] == low + [1, 0];
    assert bits[3..] == bits[3..256] + bits[256..];
    BitValueAppend(bits[3..256], bits[256..]);
    UnpackFrom(Clamp(seed), 32);
    assert Clamp(seed)[32..] == seed[32..];
    UnpackValue(seed[32..]);
  }

  lemma AtLeast(power: nat, high: nat)
    requires power >= 1
    ensures power * high >= 0 && (high == 0 <==> power * high == 0) && (high > 0 ==> power * high >= power)
  {
  }

  /** The scalar of 32 bytes has exactly 252 bits, and that of a longer seed when the bytes beyond are zero. */
  lemma ScalarRange(seed: seq<Byte>)
    requires |seed| >= 32
    ensures Pow2(SCALAR_BITS - 1) <= Scalar(seed)
    ensures Scalar(seed) < Pow2(SCALAR_BITS) <==> ByteValue(seed[32..]) == 0
    ensures |seed| == 32 ==> Scalar(seed) < Pow2(SCALAR_BITS)
  {
    var low := ScalarSplits(seed);
    TopBitRange(low, [1, 0]);
    ByteValueBound(seed[32..]);
    AtLeast(Pow2(SCALAR_BITS + 1), ByteValue(seed[32..]));
    assert Pow2(SCALAR_BITS + 1) == 2 * Pow2(SCALAR_BITS);
  }

  /** A second call on the same, already trimmed, seed changes nothing and gives the same scalar. */
  lemma ClampIdempotent(seed: seq<Byte>)
    requires |seed| >= 32
    ensures Clamp(Clamp(seed)) == Clamp(seed)
    ensures Scalar(Clamp(seed)) == Scalar(seed)
  {
    var once := Clamp(seed);
    forall k: nat | k < 8 * |seed|
      ensures Unpack(Clamp(once))[k] == Unpack(once)[k]
    {
      ClampBits(seed, k);
      ClampBits(once, k);
    }
    assert Unpack(Clamp(once)) == Unpack(once);
    PackUnpack(once);
    PackUnpack(Clamp(once));
  }
}
