/** Bit fields packed into bytes least significant bit first, the layout of
    the flag bytes of a BIP 37 merkleblock message and of a bloom filter
    (ecc/helper.go). */
module BitField {
  import opened Common

  /** The source tests `bit == 1`: any other value packs as a clear bit. */
  function Bit(b: int): (r: nat)
    ensures r <= 1
  {
    if b == 1 then 1 else 0
  }

  /** The byte value of up to eight bits, the first one least significant. */
  function PackByte(s: seq<int>): (r: nat)
    ensures r < Pow2(|s|)
  {
    if s == [] then 0 else Bit(s[0]) + 2 * PackByte(s[1..])
  }

  /** Groups of eight bits packed into one byte each. */
  function PackBits(bits: seq<int>): (r: seq<uint8>)
    requires |bits| % 8 == 0
    ensures |r| == |bits| / 8
  {
    if |bits| == 0 then []
    else
      PowValues();
      PackBits(bits[..|bits| - 8]) + [PackByte(bits[|bits| - 8..])]
  }

  /** The `m` low bits of `x`, least significant first. */
  function BitsOf(x: nat, m: nat): (r: seq<int>)
    ensures |r| == m
  {
    if m == 0 then [] else [x % 2] + BitsOf(x / 2, m - 1)
  }

  /** Every byte unpacked into eight bits, least significant first. */
  function UnpackBits(bytes: seq<uint8>): (r: seq<int>)
    ensures |r| == 8 * |bytes|
  {
    if bytes == [] then []
    else UnpackBits(bytes[..|bytes| - 1]) + BitsOf(bytes[|bytes| - 1], 8)
  }

  predicate IsBits(bits: seq<int>)
  {
    forall i :: 0 <= i < |bits| ==> bits[i] == 0 || bits[i] == 1
  }

  /** Appending one more bit adds it at the next position. */
  lemma {:induction false} PackByteSnoc(s: seq<int>, b: int)
    ensures PackByte(s + [b]) == PackByte(s) + Bit(b) * Pow2(|s|)
  {
    if s != [] {
      assert (s + [b])[1..] == s[1..] + [b];
      PackByteSnoc(s[1..], b);
    }
  }

  /** Byte k of the packed field is bits 8k to 8k+7. */
  lemma {:induction false} PackBitsAt(bits: seq<int>, k: nat)
    requires |bits| % 8 == 0 && k < |bits| / 8
    ensures PackBits(bits)[k] == PackByte(bits[8 * k..8 * k + 8])
  {
    var n := |bits|;
    var front := bits[..n - 8];
    assert PackBits(bits) == PackBits(front) + [PackByte(bits[n - 8..])];
    if k < n / 8 - 1 {
      PackBitsAt(front, k);
      assert front[8 * k..8 * k + 8] == bits[8 * k..8 * k + 8];
    } else {
      assert |PackBits(front)| == k;
      assert bits[n - 8..] == bits[8 * k..8 * k + 8];
    }
  }

  lemma {:induction false} PackBitsOf(x: nat, m: nat)
    ensures PackByte(BitsOf(x, m)) == x % Pow2(m)
  {
    if m > 0 {
      PackBitsOf(x / 2, m - 1);
      ModSplit(x, 2, Pow2(m - 1));
    }
  }

  lemma {:induction false} BitsOfPack(s: seq<int>)
    requires IsBits(s)
    ensures BitsOf(PackByte(s), |s|) == s
  {
    if s != [] {
      BitsOfPack(s[1..]);
      var p := PackByte(s);
      assert p % 2 == s[0] && p / 2 == PackByte(s[1..]);
    }
  }

  /** Bit i of the unpacked field is bit i%8 of byte i/8. */
  lemma {:induction false} UnpackBitsAt(bytes: seq<uint8>, i: nat)
    requires i < 8 * |bytes|
    ensures UnpackBits(bytes)[i] == (bytes[i / 8] / Pow2(i % 8)) % 2
  {
    var n := |bytes|;
    if i < 8 * (n - 1) {
      UnpackBitsAt(bytes[..n - 1], i);
    } else {
      BitsOfAt(bytes[n - 1], 8, i - 8 * (n - 1));
    }
  }

  lemma {:induction false} BitsOfAt(x: nat, m: nat, j: nat)
    requires j < m
    ensures BitsOf(x, m)[j] == (x / Pow2(j)) % 2
  {
    if j > 0 {
      BitsOfAt(x / 2, m - 1, j - 1);
      ModSplit(x, 2, Pow2(j - 1));
    }
  }

  /** Packing what was unpacked gives the bytes back. */
  lemma {:induction false} BytesRoundTrip(bytes: seq<uint8>)
    ensures PackBits(UnpackBits(bytes)) == bytes
  {
    if bytes != [] {
      var n := |bytes|;
      var front, last := bytes[..n - 1], bytes[n - 1];
      assert UnpackBits(bytes) == UnpackBits(front) + BitsOf(last, 8);
      PackBitsSnoc(UnpackBits(front), BitsOf(last, 8));
      BytesRoundTrip(front);
      PackByteOfBits(last);
      assert bytes == front + [last];
    }
  }

  lemma PackByteOfBits(x: uint8)
    ensures PackByte(BitsOf(x, 8)) == x
  {
    PackBitsOf(x, 8);
    PowValues();
  }

  lemma PackBitsSnoc(front: seq<int>, byteBits: seq<int>)
    requires |front| % 8 == 0 && |byteBits| == 8
    ensures PackBits(front + byteBits) == PackBits(front) + [PackByte(byteBits)]
  {
    var u := front + byteBits;
    assert u[..|u| - 8] == front;
    assert u[|u| - 8..] == byteBits;
  }

  /** Unpacking what was packed gives the bits back, when they are all 0 or 1. */
  lemma {:induction false} BitsRoundTrip(bits: seq<int>)
    requires |bits| % 8 == 0 && IsBits(bits)
    ensures UnpackBits(PackBits(bits)) == bits
  {
    if |bits| > 0 {
      var n := |bits|;
      var p := PackBits(bits);
      BitsRoundTrip(bits[..n - 8]);
      assert p[..|p| - 1] == PackBits(bits[..n - 8]);
      BitsOfPack(bits[n - 8..]);
      assert bits == bits[..n - 8] + bits[n - 8..];
    }
  }

  /** `bitFieldToBytes`: fails unless the length is a multiple of 8; bit i
      is ORed into byte i/8 at position i%8. */
  method BitFieldToBytes(bitField: seq<int>) returns (r: Result<seq<uint8>>)
    ensures |bitField| % 8 != 0 ==> r == Err(LengthError)
    ensures |bitField| % 8 == 0 ==> r == Ok(PackBits(bitField))
  {
    if |bitField| % 8 != 0 {
      return Err(LengthError);
    }
    var n := |bitField| / 8;
    var result := new uint8[n](_ => 0);
    var i := 0;
    while i < |bitField|
      invariant 0 <= i <= |bitField|
      invariant forall k :: 0 <= k < n ==> result[k] == Partial(bitField, k, i)
    {
      var byteIndex, bitIndex := i / 8, i % 8;
      PartialStep(bitField, i);
      if bitField[i] == 1 {
        // The bit is still clear, so ORing it in adds its weight.
        result[byteIndex] := result[byteIndex] + Pow2(bitIndex);
      }
      i := i + 1;
    }
    PartialComplete(bitField, result[..]);
    return Ok(result[..]);
  }

  /** Once every bit is ORed in, the bytes are the packed field. */
  lemma PartialComplete(bits: seq<int>, bytes: seq<uint8>)
    requires |bits| % 8 == 0 && |bytes| == |bits| / 8
    requires forall k :: 0 <= k < |bytes| ==> bytes[k] == Partial(bits, k, |bits|)
    ensures bytes == PackBits(bits)
  {
    forall k | 0 <= k < |bytes|
      ensures bytes[k] == PackBits(bits)[k]
    {
      assert Filled(k, |bits|) == 8;
      PackBitsAt(bits, k);
    }
  }

  /** How many of the eight bits of byte k the first i bits cover. */
  function Filled(k: nat, i: nat): (f: nat)
    ensures f <= 8
  {
    if i <= 8 * k then 0 else if i >= 8 * k + 8 then 8 else i - 8 * k
  }

  /** Byte k as far as the first i bits have been ORed into it. */
  function Partial(bits: seq<int>, k: nat, i: nat): (r: nat)
    requires |bits| % 8 == 0 && k < |bits| / 8
  {
    PackByte(bits[8 * k..8 * k + Filled(k, i)])
  }

  /** Bit i of a field of whole bytes lies in one of its bytes. */
  lemma ByteOf(i: nat, length: nat)
    requires length % 8 == 0 && i < length
    ensures i / 8 < length / 8 && i == 8 * (i / 8) + i % 8 && 0 <= i % 8 < 8
  {
    var k, n := i / 8, length / 8;
    assert length == 8 * n;
    assert 8 * k <= i < 8 * n;
    assert 8 * (n - k) > 0;
  }

  /** Bit i falls into byte i/8 at position i%8 and into no other byte. */
  lemma PartialStep(bits: seq<int>, i: nat)
    requires |bits| % 8 == 0 && i < |bits|
    ensures i / 8 < |bits| / 8
    ensures Partial(bits, i / 8, i) + Bit(bits[i]) * Pow2(i % 8) < 256
    ensures Partial(bits, i / 8, i + 1) == Partial(bits, i / 8, i) + Bit(bits[i]) * Pow2(i % 8)
    ensures forall k :: 0 <= k < |bits| / 8 && k != i / 8 ==> Partial(bits, k, i + 1) == Partial(bits, k, i)
  {
    ByteOf(i, |bits|);
    PartialBump(bits, i / 8, i % 8, i);
    PartialOthers(bits, i);
  }

  /** Bit i = 8*k + j adds its weight at position j of byte k, which stays below 256. */
  lemma PartialBump(bits: seq<int>, k: nat, j: nat, i: nat)
    requires |bits| % 8 == 0 && k < |bits| / 8 && j < 8 && i == 8 * k + j && i < |bits|
    ensures Partial(bits, k, i) + Bit(bits[i]) * Pow2(j) < 256
    ensures Partial(bits, k, i + 1) == Partial(bits, k, i) + Bit(bits[i]) * Pow2(j)
  {
    var window := bits[8 * k..i];
    assert |window| == j;
    assert Partial(bits, k, i) == PackByte(window) by {
      assert Filled(k, i) == j;
    }
    assert Partial(bits, k, i + 1) == PackByte(window + [bits[i]]) by {
      assert Filled(k, i + 1) == j + 1;
      assert window + [bits[i]] == bits[8 * k..i + 1];
    }
    PackByteSnoc(window, bits[i]);
    ByteBump(window, bits[i]);
  }

  /** Bit b added at the next position of fewer than eight packed bits keeps
      the byte below 256. */
  lemma ByteBump(window: seq<int>, b: int)
    requires |window| < 8
    ensures PackByte(window) + Bit(b) * Pow2(|window|) < 256
  {
    var j := |window|;
    var p, w := PackByte(window), Pow2(j);
    assert p < w;
    assert 2 * w <= 256 by {
      assert Pow2(j + 1) == 2 * w;
      Pow2Monotone(j + 1, 8);
      PowValues();
    }
    assert Bit(b) * w <= w by {
      if Bit(b) == 0 { assert Bit(b) * w == 0; } else { assert Bit(b) * w == w; }
    }
  }

  /** Bit i leaves every other byte as it was. */
  lemma PartialOthers(bits: seq<int>, i: nat)
    requires |bits| % 8 == 0 && i < |bits|
    ensures forall k :: 0 <= k < |bits| / 8 && k != i / 8 ==> Partial(bits, k, i + 1) == Partial(bits, k, i)
  {
    forall k | 0 <= k < |bits| / 8 && k != i / 8
      ensures Partial(bits, k, i + 1) == Partial(bits, k, i)
    {
      assert Filled(k, i + 1) == Filled(k, i);
    }
  }

  /** `bytesToBitField`: every byte contributes its eight bits, low bit first,
      by repeatedly taking `byte & 1` and shifting right. */
  method BytesToBitField(someBytes: seq<uint8>) returns (flagBits: seq<int>)
    ensures flagBits == UnpackBits(someBytes)
  {
    flagBits := [];
    var k := 0;
    while k < |someBytes|
      invariant 0 <= k <= |someBytes|
      invariant flagBits == UnpackBits(someBytes[..k])
    {
      var b: nat := someBytes[k];
      var j := 0;
      ghost var start := flagBits;
      while j < 8
        invariant 0 <= j <= 8
        invariant start + BitsOf(someBytes[k], 8) == flagBits + BitsOf(b, 8 - j)
      {
        flagBits := flagBits + [b % 2];
        b := b / 2;
        j := j + 1;
      }
      assert someBytes[..k + 1][..k] == someBytes[..k];
      k := k + 1;
    }
    assert someBytes[..k] == someBytes;
  }
}
