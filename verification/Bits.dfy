// Bits, bytes and the little-endian numbers they spell.
module Bits {
  const BYTE_BITS: nat := 8

  type Byte = x: int | 0 <= x < 256
  type Bit = x: int | 0 <= x < 2

  function Pow2(n: nat): (r: nat)
    ensures r >= 1
  {
    if n == 0 then 1 else 2 * Pow2(n - 1)
  }

  lemma {:induction false} Pow2Sum(a: nat, b: nat)
    ensures Pow2(a + b) == Pow2(a) * Pow2(b)
    decreases a
  {
    if a > 0 {
      Pow2Sum(a - 1, b);
      MulAssociates(2, Pow2(a - 1), Pow2(b));
    }
  }

  lemma MulAssociates(a: int, b: int, c: int)
    ensures a * (b * c) == (a * b) * c
  {
  }

  lemma Pow2Byte()
    ensures Pow2(8) == 256
  {
    assert Pow2(4) == 16;
  }

  function Zeros(n: nat): seq<Bit> {
    seq(n, _ => 0)
  }

  function Reversed<T>(s: seq<T>): (r: seq<T>)
    ensures |r| == |s| && forall k | 0 <= k < |s| :: r[k] == s[|s| - 1 - k]
  {
    seq(|s|, k requires 0 <= k < |s| => s[|s| - 1 - k])
  }

  predicate AreBits(bits: seq<int>) {
    forall i | 0 <= i < |bits| :: 0 <= bits[i] < 2
  }

  // ---------------------------------------------------------------------------
  // Little-endian values
  // ---------------------------------------------------------------------------

  /** Defined on all integers, as a sum of weighted digits is. */
  function BitValue(bits: seq<int>): int {
    if bits == [] then 0 else bits[0] + 2 * BitValue(bits[1..])
  }

  function ByteValue(bytes: seq<int>): int {
    if bytes == [] then 0 else bytes[0] + 256 * ByteValue(bytes[1..])
  }

  function BitsOf(n: nat, width: nat): (bits: seq<Bit>)
    ensures |bits| == width
    decreases width, n
  {
    if width == 0 then [] else [n % 2] + BitsOf(n / 2, width - 1)
  }

  function BytesOf(n: nat, width: nat): (bytes: seq<Byte>)
    ensures |bytes| == width
    decreases width, n
  {
    if width == 0 then [] else [n % 256] + BytesOf(n / 256, width - 1)
  }

  lemma {:induction false} BitValueAppend(a: seq<int>, b: seq<int>)
    ensures BitValue(a + b) == BitValue(a) + Pow2(|a|) * BitValue(b)
    decreases |a|
  {
    if a == [] {
      assert a + b == b;
    } else {
      assert (a + b)[1..] == a[1..] + b;
      BitValueAppend(a[1..], b);
      MulAssociates(2, Pow2(|a| - 1), BitValue(b));
    }
  }

  lemma {:induction false} ByteValueAppend(a: seq<int>, b: seq<int>)
    ensures ByteValue(a + b) == ByteValue(a) + Pow2(8 * |a|) * ByteValue(b)
    decreases |a|
  {
    if a == [] {
      assert a + b == b;
    } else {
      assert (a + b)[1..] == a[1..] + b;
      ByteValueAppend(a[1..], b);
      Pow2Byte();
      Pow2Sum(8, 8 * |a| - 8);
      MulAssociates(256, Pow2(8 * |a| - 8), ByteValue(b));
    }
  }

  lemma {:induction false} BitValueZeros(n: nat)
    ensures BitValue(Zeros(n)) == 0
  {
    if n > 0 {
      assert Zeros(n)[1..] == Zeros(n - 1);
      BitValueZeros(n - 1);
    }
  }

  lemma {:induction false} BitValueBound(bits: seq<int>)
    requires AreBits(bits)
    ensures 0 <= BitValue(bits) < Pow2(|bits|)
    decreases |bits|
  {
    if bits != [] {
      BitValueBound(bits[1..]);
    }
  }

  lemma {:induction false} ByteValueBound(bytes: seq<Byte>)
    ensures 0 <= ByteValue(bytes) < Pow2(8 * |bytes|)
    decreases |bytes|
  {
    if bytes != [] {
      ByteValueBound(bytes[1..]);
      Pow2Byte();
      Pow2Sum(8, 8 * |bytes| - 8);
    }
  }

  // ---------------------------------------------------------------------------
  // Fixed-width digits and values are inverse to each other
  // ---------------------------------------------------------------------------

  lemma {:induction false} BitsOfValue(bits: seq<int>)
    requires AreBits(bits)
    ensures BitValue(bits) >= 0 && BitsOf(BitValue(bits), |bits|) == bits
    decreases |bits|
  {
    BitValueBound(bits);
    if bits != [] {
      BitsOfValue(bits[1..]);
      assert BitValue(bits) / 2 == BitValue(bits[1..]) && BitValue(bits) % 2 == bits[0];
      assert bits == [bits[0]] + bits[1..];
    }
  }

  lemma {:induction false} ValueOfBits(n: nat, width: nat)
    requires n < Pow2(width)
    ensures BitValue(BitsOf(n, width)) == n
    decreases width
  {
    if width > 0 {
      ValueOfBits(n / 2, width - 1);
    }
  }

  lemma {:induction false} BytesOfValue(bytes: seq<Byte>)
    ensures ByteValue(bytes) >= 0 && BytesOf(ByteValue(bytes), |bytes|) == bytes
    decreases |bytes|
  {
    ByteValueBound(bytes);
    if bytes != [] {
      BytesOfValue(bytes[1..]);
      ByteValueBound(bytes[1..]);
      assert ByteValue(bytes) / 256 == ByteValue(bytes[1..]) && ByteValue(bytes) % 256 == bytes[0];
      assert bytes == [bytes[0]] + bytes[1..];
    }
  }

  /** `n >> k` */
  function Shr(n: nat, k: nat): nat
    decreases k
  {
    if k == 0 then n else Shr(n / 2, k - 1)
  }

  lemma {:induction false} ValueOfBytes(n: nat, width: nat)
    requires n < Pow2(8 * width)
    ensures ByteValue(BytesOf(n, width)) == n
    decreases width
  {
    if width > 0 {
      ByteShare(n, width);
      ValueOfBytes(n / 256, width - 1);
    }
  }

  lemma ByteShare(n: nat, width: nat)
    requires n < Pow2(8 * width) && width > 0
    ensures n / 256 < Pow2(8 * width - 8)
  {
    Pow2Byte();
    var eight := 8;
    Pow2Sum(eight, 8 * width - eight);
  }

  lemma {:induction false} BitsOfSplit(n: nat, a: nat, b: nat)
    ensures BitsOf(n, a + b) == BitsOf(n, a) + BitsOf(Shr(n, a), b)
    decreases a
  {
    if a > 0 {
      BitsOfSplit(n / 2, a - 1, b);
    }
  }

  lemma {:induction false} BitsOfModulo(n: nat, width: nat)
    ensures n == BitValue(BitsOf(n, width)) + Pow2(width) * Shr(n, width)
    decreases width
  {
    if width > 0 {
      BitsOfModulo(n / 2, width - 1);
      MulAssociates(2, Pow2(width - 1), Shr(n / 2, width - 1));
      assert n == n % 2 + 2 * (n / 2);
    }
  }

  /** A digit of the binary expansion, as a shift and a mask compute it. */
  lemma {:induction false} BitAt(n: nat, width: nat, j: nat)
    requires j < width
    ensures BitsOf(n, width)[j] == And(Shr(n, j), 1)
    decreases width
  {
    if j > 0 {
      BitAt(n / 2, width - 1, j - 1);
    } else {
      assert And(n / 2, 0) == 0;
    }
  }

  // ---------------------------------------------------------------------------
  // Bitwise operators on naturals
  // ---------------------------------------------------------------------------

  function Or(a: nat, b: nat): nat
    decreases a + b
  {
    if a == 0 then b else if b == 0 then a else
      (if a % 2 == 1 || b % 2 == 1 then 1 else 0) + 2 * Or(a / 2, b / 2)
  }

  function And(a: nat, b: nat): nat
    decreases a + b
  {
    if a == 0 || b == 0 then 0 else
      (if a % 2 == 1 && b % 2 == 1 then 1 else 0) + 2 * And(a / 2, b / 2)
  }

  lemma {:induction false} OrBound(a: nat, b: nat, k: nat)
    requires a < Pow2(k) && b < Pow2(k)
    ensures Or(a, b) < Pow2(k)
    decreases k
  {
    if a != 0 && b != 0 {
      OrBound(a / 2, b / 2, k - 1);
    }
  }

  /** Setting a bit above all others adds it. */
  lemma {:induction false} OrAbove(a: nat, bit: Bit, k: nat)
    requires a < Pow2(k)
    ensures Or(a, bit * Pow2(k)) == a + bit * Pow2(k)
    decreases k
  {
    if k > 0 && a != 0 && bit == 1 {
      OrAbove(a / 2, bit, k - 1);
      assert Pow2(k) / 2 == Pow2(k - 1) && Pow2(k) % 2 == 0;
    }
  }

  /** `(b >> j) & 1` */
  function Digit(b: Byte, j: nat): (d: Bit)
    requires j < 8
  {
    BitAt(b, BYTE_BITS, j);
    And(Shr(b, j), 1)
  }

  /** Both operators work digit by digit. */
  lemma {:induction false} AndBits(a: nat, b: nat, width: nat, i: nat)
    requires i < width
    ensures BitsOf(And(a, b), width)[i] == (if BitsOf(b, width)[i] == 1 then BitsOf(a, width)[i] else 0)
    decreases width
  {
    if a == 0 || b == 0 {
      ZeroBits(width, i);
    } else if i > 0 {
      AndBits(a / 2, b / 2, width - 1, i - 1);
      assert And(a, b) / 2 == And(a / 2, b / 2);
    }
  }

  lemma {:induction false} OrBits(a: nat, b: nat, width: nat, i: nat)
    requires i < width
    ensures BitsOf(Or(a, b), width)[i] == (if BitsOf(b, width)[i] == 1 then 1 else BitsOf(a, width)[i])
    decreases width
  {
    if a == 0 || b == 0 {
      ZeroBits(width, i);
    } else if i > 0 {
      OrBits(a / 2, b / 2, width - 1, i - 1);
      assert Or(a, b) / 2 == Or(a / 2, b / 2);
    }
  }

  lemma {:induction false} ZeroBits(width: nat, i: nat)
    requires i < width
    ensures BitsOf(0, width)[i] == 0
    decreases width
  {
    if i > 0 {
      ZeroBits(width - 1, i - 1);
    }
  }

  // ---------------------------------------------------------------------------
  // Unpacking bytes to bits and packing bits to bytes
  // ---------------------------------------------------------------------------

  function Unpack(bytes: seq<Byte>): (bits: seq<Bit>)
    ensures |bits| == 8 * |bytes|
  {
    if bytes == [] then [] else BitsOf(bytes[0], BYTE_BITS) + Unpack(bytes[1..])
  }

  /** Eight digits to a byte, the last byte from what is left. */
  function Pack(bits: seq<int>): (bytes: seq<int>)
    ensures |bytes| == (|bits| + 7) / 8
    decreases |bits|
  {
    if |bits| <= 8 then if bits == [] then [] else [BitValue(bits)]
    else [BitValue(bits[..8])] + Pack(bits[8..])
  }

  lemma PackFirst(byte: seq<int>, bits: seq<int>)
    requires |byte| == 8
    ensures Pack(byte + bits) == [BitValue(byte)] + Pack(bits)
  {
    assert (byte + bits)[..8] == byte && (byte + bits)[8..] == bits;
    if bits == [] {
      assert byte + bits == byte;
    }
  }

  lemma {:induction false} PackedBytes(bits: seq<int>)
    requires AreBits(bits)
    ensures forall i | 0 <= i < |Pack(bits)| :: 0 <= Pack(bits)[i] < 256
    decreases |bits|
  {
    Pow2Byte();
    if |bits| > 8 {
      PackedBytes(bits[8..]);
      BitValueBound(bits[..8]);
    } else if bits != [] {
      BitValueBound(bits);
      Pow2Sum(|bits|, 8 - |bits|);
      assert Pow2(|bits|) <= 256 by {
        assert Pow2(|bits|) * Pow2(8 - |bits|) >= Pow2(|bits|);
      }
    }
  }

  /** Bytes to bits to bytes is the identity. */
  lemma {:induction false} PackUnpack(bytes: seq<Byte>)
    ensures Pack(Unpack(bytes)) == bytes
    decreases |bytes|
  {
    if bytes != [] {
      PackFirst(BitsOf(bytes[0], BYTE_BITS), Unpack(bytes[1..]));
      Pow2Byte();
      ValueOfBits(bytes[0], BYTE_BITS);
      PackUnpack(bytes[1..]);
      assert bytes == [bytes[0]] + bytes[1..];
    }
  }

  lemma FillKeepsValue(bits: seq<int>, n: nat)
    ensures BitValue(bits + Zeros(n)) == BitValue(bits)
  {
    BitValueAppend(bits, Zeros(n));
    BitValueZeros(n);
  }

  /** A number spelled by few digits has the same digits, then zeros, at any larger width. */
  lemma FilledBits(bits: seq<int>, width: nat)
    requires AreBits(bits) && |bits| <= width
    ensures 0 <= BitValue(bits) < Pow2(width)
    ensures BitsOf(BitValue(bits), width) == bits + Zeros(width - |bits|)
  {
    var filled := bits + Zeros(width - |bits|);
    FillKeepsValue(bits, width - |bits|);
    BitValueBound(filled);
    BitsOfValue(filled);
  }

  lemma UnpackPackByte(bits: seq<int>)
    requires AreBits(bits) && 0 < |bits| <= 8
    ensures 0 <= BitValue(bits) < 256
    ensures BitsOf(BitValue(bits), BYTE_BITS) == bits + Zeros(8 - |bits|)
  {
    FilledBits(bits, BYTE_BITS);
    Pow2Byte();
  }

  /** Bits to bytes to bits is the identity up to zeros that fill the last byte. */
  lemma {:induction false} UnpackPack(bits: seq<int>)
    requires AreBits(bits)
    ensures forall i | 0 <= i < |Pack(bits)| :: 0 <= Pack(bits)[i] < 256
    ensures Unpack(Pack(bits)) == bits + Zeros(8 * |Pack(bits)| - |bits|)
    decreases |bits|
  {
    PackedBytes(bits);
    if |bits| > 8 {
      var rest := bits[8..];
      UnpackPack(rest);
      UnpackPackByte(bits[..8]);
      assert Pack(bits) == [BitValue(bits[..8])] + Pack(rest);
      var fill := Zeros(8 * |Pack(rest)| - |rest|);
      assert bits[..8] + Zeros(0) + (rest + fill) == bits + fill;
    } else if bits != [] {
      UnpackPackByte(bits);
      assert Unpack(Pack(bits)) == bits + Zeros(8 - |bits|) + Unpack([]);
    } else {
      assert Zeros(0) == [];
    }
  }

  lemma {:induction false} UnpackValue(bytes: seq<Byte>)
    ensures BitValue(Unpack(bytes)) == ByteValue(bytes)
    decreases |bytes|
  {
    if bytes != [] {
      UnpackValue(bytes[1..]);
      BitValueAppend(BitsOf(bytes[0], BYTE_BITS), Unpack(bytes[1..]));
      Pow2Byte();
      ValueOfBits(bytes[0], BYTE_BITS);
    }
  }

  /** Packing keeps the value of any digits, bits or not. */
  lemma {:induction false} PackValue(bits: seq<int>)
    ensures ByteValue(Pack(bits)) == BitValue(bits)
    decreases |bits|
  {
    if |bits| > 8 {
      PackValue(bits[8..]);
      assert bits == bits[..8] + bits[8..];
      BitValueAppend(bits[..8], bits[8..]);
      Pow2Byte();
    } else if bits != [] {
      assert Pack(bits)[1..] == [];
    }
  }

  lemma ConcatIndex(a: seq<Bit>, b: seq<Bit>, k: nat)
    requires k < |a| + |b|
    ensures (a + b)[k] == if k < |a| then a[k] else b[k - |a|]
  {
  }

  lemma {:induction false} UnpackedBit(bytes: seq<Byte>, i: nat, j: nat)
    requires i < |bytes| && j < 8
    ensures Unpack(bytes)[8 * i + j] == BitsOf(bytes[i], BYTE_BITS)[j]
    decreases i
  {
    ConcatIndex(BitsOf(bytes[0], BYTE_BITS), Unpack(bytes[1..]), 8 * i + j);
    if i > 0 {
      UnpackedBit(bytes[1..], i - 1, j);
    }
  }

  lemma UnpackAt(bytes: seq<Byte>, i: nat, j: nat)
    requires i < |bytes| && j < 8
    ensures Unpack(bytes)[8 * i + j] == Digit(bytes[i], j)
  {
    UnpackedBit(bytes, i, j);
    BitAt(bytes[i], BYTE_BITS, j);
  }

  /** The digits of the `i`th byte; the last byte may have fewer than eight. */
  function Block(bits: seq<int>, i: nat): seq<int>
    requires 8 * i < |bits|
  {
    if 8 * i + 8 <= |bits| then bits[8 * i..8 * i + 8] else bits[8 * i..]
  }

  lemma BlockOfRest(bits: seq<int>, i: nat)
    requires 0 < i && 8 * i < |bits|
    ensures Block(bits[8..], i - 1) == Block(bits, i)
  {
  }

  lemma {:induction false} PackAt(bits: seq<int>, i: nat)
    requires 8 * i < |bits|
    ensures Pack(bits)[i] == BitValue(Block(bits, i))
    decreases i
  {
    if i == 0 {
      assert |bits| <= 8 ==> Block(bits, 0) == bits;
    } else {
      PackAt(bits[8..], i - 1);
      BlockOfRest(bits, i);
    }
  }
}
