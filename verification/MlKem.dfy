// Recovering the 768-byte ML-KEM ciphertext (section 8 of FIPS 203) from 25 field elements.
// JavaScript restores every chunk at its full width. Go keeps only the bytes that the
// number needs, so the two agree on an exactly known set of ciphertexts.
module MlKem {
  import opened Prelude
  import opened Bits
  import opened BitCodec

  // ---------------------------------------------------------------------------
  // Chunks
  // ---------------------------------------------------------------------------

  const CHUNKS: nat := 25

  /** The first 24 elements carry 31 bytes each, the last one 24. */
  function ChunkBytes(i: nat): nat {
    if i < CHUNKS - 1 then 31 else 24
  }

  predicate InRange(nums: seq<nat>) {
    |nums| == CHUNKS && forall i | 0 <= i < CHUNKS :: nums[i] < Pow2(8 * ChunkBytes(i))
  }

  /** All chunks from the `i`th on, each at full width. */
  function FixedFrom(nums: seq<nat>, i: nat): (bytes: seq<Byte>)
    requires i <= CHUNKS == |nums|
    ensures |bytes| == 768 - 31 * i || (i == CHUNKS && bytes == [])
    decreases |nums| - i
  {
    if i == CHUNKS then [] else BytesOf(nums[i], ChunkBytes(i)) + FixedFrom(nums, i + 1)
  }

  /** The numbers a circuit makes of the bytes from the `i`th chunk on. */
  function NumbersFrom(bytes: seq<Byte>, i: nat): (nums: seq<nat>)
    requires |bytes| == 768 && i <= CHUNKS
    ensures |nums| == CHUNKS - i
    decreases |bytes| - i
  {
    if i == CHUNKS then [] else
      ByteValueBound(bytes[31 * i..31 * i + ChunkBytes(i)]);
      [ByteValue(bytes[31 * i..31 * i + ChunkBytes(i)])] + NumbersFrom(bytes, i + 1)
  }

  lemma {:induction false} NumbersAt(bytes: seq<Byte>, i: nat, j: nat)
    requires |bytes| == 768 && i <= j < CHUNKS
    ensures NumbersFrom(bytes, i)[j - i] == ByteValue(bytes[31 * j..31 * j + ChunkBytes(j)])
    decreases j - i
  {
    if i < j {
      NumbersAt(bytes, i + 1, j);
    }
  }

  /** The bytes that the chunks from the `i`th on cover. */
  function BytesFrom(bytes: seq<Byte>, i: nat): seq<Byte>
    requires |bytes| == 768 && i <= CHUNKS
  {
    if i == CHUNKS then [] else bytes[31 * i..]
  }

  lemma BytesFromSplit(bytes: seq<Byte>, i: nat)
    requires |bytes| == 768 && i < CHUNKS
    ensures BytesFrom(bytes, i) == bytes[31 * i..31 * i + ChunkBytes(i)] + BytesFrom(bytes, i + 1)
  {
    assert ChunkBytes(i) == if i == 24 then 768 - 31 * i else 31;
  }

  lemma {:induction false} FixedRestores(bytes: seq<Byte>, nums: seq<nat>, i: nat)
    requires |bytes| == 768 && i <= CHUNKS && nums == NumbersFrom(bytes, 0)
    ensures FixedFrom(nums, i) == BytesFrom(bytes, i)
    decreases CHUNKS - i
  {
    if i < CHUNKS {
      var chunk := bytes[31 * i..31 * i + ChunkBytes(i)];
      assert nums[i] == ByteValue(chunk) by {
        NumbersAt(bytes, 0, i);
      }
      assert BytesOf(nums[i], ChunkBytes(i)) == chunk by {
        BytesOfValue(chunk);
      }
      FixedRestores(bytes, nums, i + 1);
      BytesFromSplit(bytes, i);
    }
  }

  lemma NumbersInRange(bytes: seq<Byte>)
    requires |bytes| == 768
    ensures InRange(NumbersFrom(bytes, 0))
  {
    forall i | 0 <= i < CHUNKS
      ensures NumbersFrom(bytes, 0)[i] < Pow2(8 * ChunkBytes(i))
    {
      NumbersAt(bytes, 0, i);
      ByteValueBound(bytes[31 * i..31 * i + ChunkBytes(i)]);
    }
  }

  // ---------------------------------------------------------------------------
  // JavaScript
  // ---------------------------------------------------------------------------

  /** The digits of `n.toString(2)`. */
  function Binary(n: nat): (digits: seq<Bit>)
    ensures |digits| >= 1
  {
    if n < 2 then [n] else Binary(n / 2) + [n % 2]
  }

  function PadStart(digits: seq<Bit>, width: nat): seq<Bit> {
    if |digits| < width then Zeros(width - |digits|) + digits else digits
  }

  function Widest(n: nat, width: nat): nat {
    if |Binary(n)| < width then width else |Binary(n)|
  }

  lemma {:induction false} ReversedBinary(n: nat)
    ensures Reversed(Binary(n)) == BitsOf(n, |Binary(n)|)
    ensures Shr(n, |Binary(n)|) == 0
    decreases n
  {
    if n >= 2 {
      ReversedBinary(n / 2);
      assert Reversed(Binary(n / 2) + [n % 2]) == [n % 2] + Reversed(Binary(n / 2));
    } else {
      assert BitsOf(n, 1) == [n % 2] + BitsOf(n / 2, 0);
      assert Shr(n, 1) == Shr(n / 2, 0);
    }
  }

  lemma {:induction false} BitsOfZero(width: nat)
    ensures BitsOf(0, width) == Zeros(width)
    decreases width
  {
    if width > 0 {
      BitsOfZero(width - 1);
    }
  }

  lemma ReversedPadded(n: nat, width: nat)
    ensures Reversed(PadStart(Binary(n), width)) == BitsOf(n, Widest(n, width))
  {
    var digits := Binary(n);
    ReversedBinary(n);
    if |digits| < width {
      var k := width - |digits|;
      BitsOfSplit(n, |digits|, k);
      BitsOfZero(k);
      assert Reversed(Zeros(k) + digits) == Reversed(digits) + Zeros(k);
    }
  }

  lemma {:induction false} BinaryLength(n: nat, width: nat)
    requires n < Pow2(width) && width >= 1
    ensures |Binary(n)| <= width
    decreases width
  {
    if n >= 2 {
      BinaryLength(n / 2, width - 1);
    }
  }

  /** One chunk, a number too wide for its width included. */
  function JsChunkBytes(n: nat, width: nat): seq<int> {
    Pack(BitsOf(n, Widest(n, width)))
  }

  /** No chunk loses bits, however wide its number is. */
  lemma JsChunkKeepsValue(n: nat, width: nat)
    ensures ByteValue(JsChunkBytes(n, width)) == n
    ensures |JsChunkBytes(n, width)| == (Widest(n, width) + 7) / 8 && Widest(n, width) >= width
  {
    var bits := Widest(n, width);
    PackValue(BitsOf(n, bits));
    ReversedBinary(n);
    ShrStays(n, |Binary(n)|, bits - |Binary(n)|);
    BitsOfModulo(n, bits);
    assert Pow2(bits) * 0 == 0;
  }

  lemma {:induction false} ShrStays(n: nat, width: nat, more: nat)
    requires Shr(n, width) == 0
    ensures Shr(n, width + more) == 0
    decreases width
  {
    if width == 0 {
      ShrZero(more);
    } else {
      ShrStays(n / 2, width - 1, more);
    }
  }

  lemma {:induction false} ShrZero(k: nat)
    ensures Shr(0, k) == 0
  {
    if k > 0 {
      ShrZero(k - 1);
    }
  }

  /** What JavaScript makes of the chunks from the `i`th on. */
  function JsFrom(nums: seq<nat>, i: nat): seq<int>
    requires i <= CHUNKS <= |nums|
    decreases |nums| - i
  {
    if i == CHUNKS then [] else JsChunkBytes(nums[i], 8 * ChunkBytes(i)) + JsFrom(nums, i + 1)
  }

  /** `bitsToBytes(n.toString(2).padStart(width, '0').split('').map(Number).reverse())` */
  method JsChunk(n: nat, width: nat) returns (bytes: seq<int>)
    ensures bytes == JsChunkBytes(n, width)
  {
    ReversedPadded(n, width);
    bytes := JsBitsToBytes(Reversed(PadStart(Binary(n), width)));
  }

  /** The chunk that comes after the bytes `done`. */
  method JsNextChunk(nums: seq<nat>, i: nat, width: nat, ghost done: seq<int>) returns (bytes: seq<int>)
    requires i < CHUNKS <= |nums| && width == 8 * ChunkBytes(i)
    ensures done + JsFrom(nums, i) == done + bytes + JsFrom(nums, i + 1)
  {
    bytes := JsChunk(nums[i], width);
    ghost var rest := JsFrom(nums, i + 1);
    assert JsFrom(nums, i) == bytes + rest;
    assert done + (bytes + rest) == done + bytes + rest;
  }

  method JsRecover(nums: seq<nat>) returns (cBytes: seq<int>)
    requires |nums| >= CHUNKS
    ensures cBytes == JsFrom(nums, 0)
  {
    ghost var whole := JsFrom(nums, 0);
    cBytes := [];
    assert cBytes + whole == whole;
    for i := 0 to 24
      invariant cBytes + JsFrom(nums, i) == whole
    {
      var bytes := JsNextChunk(nums, i, 248, cBytes);
      cBytes := cBytes + bytes;
    }
    var lastBytes := JsNextChunk(nums, 24, 192, cBytes);
    cBytes := cBytes + lastBytes;
    assert cBytes + JsFrom(nums, CHUNKS) == cBytes;
  }

  lemma {:induction false} PackFixed(n: nat, width: nat)
    ensures Pack(BitsOf(n, 8 * width)) == BytesOf(n, width)
    decreases width
  {
    if width > 0 {
      var eight := 8;
      BitsOfSplit(n, eight, 8 * width - 8);
      PackFirst(BitsOf(n, eight), BitsOf(Shr(n, eight), 8 * width - 8));
      ByteOf(n, eight);
      PackFixed(n / 256, width - 1);
    }
  }

  lemma ByteOf(n: nat, eight: nat)
    requires eight == 8
    ensures Shr(n, eight) == n / 256 && BitValue(BitsOf(n, eight)) == n % 256
  {
    BitsOfModulo(n, eight);
    Pow2Byte();
    assert Shr(n, eight) == Shr(n / 2 / 2 / 2 / 2, 4);
  }

  lemma ChunkIsFixed(n: nat, width: nat)
    requires n < Pow2(8 * width) && width > 0
    ensures JsChunkBytes(n, 8 * width) == BytesOf(n, width)
  {
    BinaryLength(n, 8 * width);
    PackFixed(n, width);
  }

  lemma {:induction false} JsIsFixed(nums: seq<nat>, i: nat)
    requires InRange(nums) && i <= CHUNKS
    ensures JsFrom(nums, i) == FixedFrom(nums, i)
    decreases CHUNKS - i
  {
    if i < CHUNKS {
      ChunkIsFixed(nums[i], ChunkBytes(i));
      JsIsFixed(nums, i + 1);
    }
  }

  /** JavaScript returns exactly the bytes that were packed. */
  lemma JsRecoversAll(bytes: seq<Byte>)
    requires |bytes| == 768
    ensures JsFrom(NumbersFrom(bytes, 0), 0) == bytes
  {
    NumbersInRange(bytes);
    JsIsFixed(NumbersFrom(bytes, 0), 0);
    FixedRestores(bytes, NumbersFrom(bytes, 0), 0);
  }

  // ---------------------------------------------------------------------------
  // Go
  // ---------------------------------------------------------------------------

  method ReverseSlice(s: array<Byte>)
    modifies s
    ensures s[..] == Reversed(old(s[..]))
  {
    var i, j := 0, s.Length - 1;
    while i < j
      invariant 0 <= i <= j + 1 && i + j == s.Length - 1
      invariant forall k | 0 <= k < i || j < k < s.Length :: s[k] == old(s[s.Length - 1 - k])
      invariant forall k | i <= k <= j :: s[k] == old(s[k])
    {
      s[i], s[j] := s[j], s[i];
      i, j := i + 1, j - 1;
    }
  }

  /** `big.Int.Bytes`: big-endian, no leading zero. */
  function BigEndian(n: nat): seq<Byte> {
    if n == 0 then [] else BigEndian(n / 256) + [n % 256]
  }

  /** The same bytes from the low end. */
  function MinBytes(n: nat): seq<Byte> {
    if n == 0 then [] else [n % 256] + MinBytes(n / 256)
  }

  lemma {:induction false} ReversedBigEndian(n: nat)
    ensures Reversed(BigEndian(n)) == MinBytes(n)
    decreases n
  {
    if n > 0 {
      ReversedBigEndian(n / 256);
      assert Reversed(BigEndian(n / 256) + [n % 256]) == [n % 256] + Reversed(BigEndian(n / 256));
    }
  }

  function Magnitude(v: int): nat {
    if v < 0 then -v else v
  }

  /** What Go makes of the parsed numbers from the `i`th on: the first refusal, or all minimal byte strings. */
  function GoFrom(values: seq<Option<int>>, i: nat): Result<seq<Byte>, CodecError>
    requires i <= |values|
    decreases |values| - i
  {
    if i == |values| then Ok([]) else
      match values[i]
      case None => Err(NotANumber)
      case Some(v) =>
        if |MinBytes(Magnitude(v))| > (if i < |values| - 1 then 248 / 8 else 192 / 8) then Err(ChunkTooLong) else
          match GoFrom(values, i + 1)
          case Err(e) => Err(e)
          case Ok(rest) => Ok(MinBytes(Magnitude(v)) + rest)
  }

  /** `SetString(str, 10)` is the parameter `parse`. */
  method GoRecover(parse: string -> Option<int>, strs: seq<string>) returns (r: Result<seq<Byte>, CodecError>)
    ensures r == GoFrom(seq(|strs|, i requires 0 <= i < |strs| => parse(strs[i])), 0)
  {
    ghost var values := seq(|strs|, i requires 0 <= i < |strs| => parse(strs[i]));
    var ciphertextBytes: seq<Byte> := [];
    if GoFrom(values, 0).Ok? {
      assert [] + GoFrom(values, 0).value == GoFrom(values, 0).value;
    }
    for i := 0 to |strs|
      invariant match GoFrom(values, i)
                case Err(e) => GoFrom(values, 0) == Err(e)
                case Ok(rest) => GoFrom(values, 0) == Ok(ciphertextBytes + rest)
    {
      match parse(strs[i]) {
        case None => return Err(NotANumber);
        case Some(v) =>
          var bytes := BigEndian(Magnitude(v));
          ReversedBigEndian(Magnitude(v));
          if i < |strs| - 1 {
            if |bytes| > 248 / 8 {
              return Err(ChunkTooLong);
            }
          } else if |bytes| > 192 / 8 {
            return Err(ChunkTooLong);
          }
          var vBytes := new Byte[|bytes|](k requires 0 <= k < |bytes| => bytes[k]);
          assert vBytes[..] == bytes;
          ReverseSlice(vBytes);
          ghost var before := ciphertextBytes;
          ciphertextBytes := ciphertextBytes + vBytes[..];
          if GoFrom(values, i + 1).Ok? {
            var rest := GoFrom(values, i + 1).value;
            assert before + (MinBytes(Magnitude(v)) + rest) == ciphertextBytes + rest;
          }
      }
    }
    assert ciphertextBytes + [] == ciphertextBytes;
    r := Ok(ciphertextBytes);
  }

  /** The largest number of bits that Go accepts of the `i`th text of `n`. */
  function AcceptedBits(i: nat, n: nat): nat {
    if i + 1 == n then 192 else 248
  }

  lemma {:induction false} MinBytesLength(n: nat, width: nat)
    ensures |MinBytes(n)| <= width <==> n < Pow2(8 * width)
    decreases width
  {
    Pow2Byte();
    if width > 0 {
      MinBytesLength(n / 256, width - 1);
      Pow2Sum(8, 8 * width - 8);
      QuotientBelow(n, Pow2(8 * width - 8));
    }
  }

  lemma QuotientBelow(n: nat, bound: nat)
    ensures n / 256 < bound <==> n < 256 * bound
  {
  }

  /** The `i`th text spells a number that Go accepts. */
  predicate Accepted(values: seq<Option<int>>, i: nat)
    requires i < |values|
  {
    var bound: int := Pow2(AcceptedBits(i, |values|));
    values[i].Some? && -bound < values[i].value < bound
  }

  lemma AcceptedStep(values: seq<Option<int>>, i: nat)
    requires i < |values|
    ensures !Accepted(values, i) ==> GoFrom(values, i) == Err(if values[i].None? then NotANumber else ChunkTooLong)
    ensures Accepted(values, i) ==> (GoFrom(values, i).Ok? <==> GoFrom(values, i + 1).Ok?)
    ensures Accepted(values, i) && GoFrom(values, i + 1).Err? ==> GoFrom(values, i) == GoFrom(values, i + 1)
  {
    if values[i].Some? {
      var width := if i + 1 == |values| then 24 else 31;
      MinBytesLength(Magnitude(values[i].value), width);
      assert AcceptedBits(i, |values|) == 8 * width;
    }
  }

  /** The first text that is no number, or one of more than 248 bits, 192 for the last, decides on the error. */
  lemma {:induction false} GoRefuses(values: seq<Option<int>>, i: nat, bad: nat)
    requires i <= bad < |values| && !Accepted(values, bad)
    requires forall k | i <= k < bad :: Accepted(values, k)
    ensures GoFrom(values, i) == Err(if values[bad].None? then NotANumber else ChunkTooLong)
    decreases bad - i
  {
    AcceptedStep(values, i);
    if i < bad {
      GoRefuses(values, i + 1, bad);
    }
  }

  /** Signs are lost: only magnitudes are written. */
  lemma {:induction false} SignIgnored(values: seq<Option<int>>, others: seq<Option<int>>, i: nat)
    requires i <= |values| == |others|
    requires forall k | 0 <= k < |values| ::
               others[k] == values[k] || (values[k].Some? && others[k] == Some(-values[k].value))
    ensures GoFrom(others, i) == GoFrom(values, i)
    decreases |values| - i
  {
    if i < |values| {
      SignIgnored(values, others, i + 1);
    }
  }

  /** Without such a text there is no error. */
  lemma {:induction false} GoAccepts(values: seq<Option<int>>, i: nat)
    requires i <= |values| && forall k | i <= k < |values| :: Accepted(values, k)
    ensures GoFrom(values, i).Ok?
    decreases |values| - i
  {
    if i < |values| {
      AcceptedStep(values, i);
      GoAccepts(values, i + 1);
    }
  }

  // ---------------------------------------------------------------------------
  // When the two agree
  // ---------------------------------------------------------------------------

  /** The bytes of a chunk without the zeros at its top. */
  function Stripped(bytes: seq<Byte>): (s: seq<Byte>)
    ensures |s| <= |bytes|
    ensures |s| == |bytes| <==> bytes == [] || bytes[|bytes| - 1] != 0
  {
    if bytes == [] || bytes[|bytes| - 1] != 0 then bytes else Stripped(bytes[..|bytes| - 1])
  }

  lemma {:induction false} StripPrefix(b: Byte, bytes: seq<Byte>)
    ensures Stripped([b] + bytes) == if Stripped(bytes) == [] && b == 0 then [] else [b] + Stripped(bytes)
    decreases |bytes|
  {
    if bytes == [] {
      assert [b] + bytes == [b] && [b][..0] == [];
    } else if bytes[|bytes| - 1] == 0 {
      StripPrefix(b, bytes[..|bytes| - 1]);
      assert ([b] + bytes)[..|bytes|] == [b] + bytes[..|bytes| - 1];
    }
  }

  /** The minimal bytes of a number are its full-width bytes without the zeros at the top. */
  lemma {:induction false} MinBytesStripped(n: nat, width: nat)
    requires n < Pow2(8 * width)
    ensures MinBytes(n) == Stripped(BytesOf(n, width))
    decreases width
  {
    if width > 0 {
      ByteShare(n, width);
      MinBytesStripped(n / 256, width - 1);
      StripPrefix(n % 256, BytesOf(n / 256, width - 1));
      assert n / 256 == 0 <==> MinBytes(n / 256) == [];
    }
  }

  /** The stripped chunks from the `i`th on. */
  function StrippedFrom(nums: seq<nat>, i: nat): seq<Byte>
    requires i <= CHUNKS == |nums|
    decreases |nums| - i
  {
    if i == CHUNKS then [] else Stripped(BytesOf(nums[i], ChunkBytes(i))) + StrippedFrom(nums, i + 1)
  }

  predicate TopBytesNonzero(nums: seq<nat>, i: nat)
    requires i <= CHUNKS == |nums|
  {
    forall j | i <= j < CHUNKS :: BytesOf(nums[j], ChunkBytes(j))[ChunkBytes(j) - 1] != 0
  }

  lemma TopBytesSplit(nums: seq<nat>, i: nat)
    requires i < CHUNKS == |nums|
    ensures TopBytesNonzero(nums, i) <==>
              BytesOf(nums[i], ChunkBytes(i))[ChunkBytes(i) - 1] != 0 && TopBytesNonzero(nums, i + 1)
  {
  }

  lemma {:induction false} StrippedLength(nums: seq<nat>, i: nat)
    requires i <= CHUNKS == |nums|
    ensures |StrippedFrom(nums, i)| <= |FixedFrom(nums, i)|
    ensures |StrippedFrom(nums, i)| == |FixedFrom(nums, i)| <==> TopBytesNonzero(nums, i)
    ensures TopBytesNonzero(nums, i) ==> StrippedFrom(nums, i) == FixedFrom(nums, i)
    decreases CHUNKS - i
  {
    if i < CHUNKS {
      StrippedLength(nums, i + 1);
      TopBytesSplit(nums, i);
    }
  }

  function Parsed(nums: seq<nat>): seq<Option<int>> {
    seq(|nums|, i requires 0 <= i < |nums| => Some(nums[i]))
  }

  lemma {:induction false} GoStrips(nums: seq<nat>, i: nat)
    requires InRange(nums) && i <= CHUNKS
    ensures GoFrom(Parsed(nums), i) == Ok(StrippedFrom(nums, i))
    decreases CHUNKS - i
  {
    if i < CHUNKS {
      MinBytesStripped(nums[i], ChunkBytes(i));
      GoStrips(nums, i + 1);
    }
  }

  /** On chunks in range Go never refuses; it returns every chunk without its top zeros, and so it returns
      768 bytes, and what JavaScript returns, exactly when no chunk's top byte is zero. */
  lemma GoAgreesWithJs(nums: seq<nat>)
    requires InRange(nums)
    ensures GoFrom(Parsed(nums), 0) == Ok(StrippedFrom(nums, 0))
    ensures |StrippedFrom(nums, 0)| == 768 <==> TopBytesNonzero(nums, 0)
    ensures StrippedFrom(nums, 0) == JsFrom(nums, 0) <==> TopBytesNonzero(nums, 0)
  {
    GoStrips(nums, 0);
    StrippedLength(nums, 0);
    JsIsFixed(nums, 0);
  }
}
