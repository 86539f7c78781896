/** Fixed-width little-endian integers and CompactSize varints (ecc/helper.go). */
module Codec {
  import opened Common

  /** The unsigned integer whose little-endian bytes are `b`. */
  function LittleEndianToInt(b: seq<uint8>): (n: nat)
    ensures n < Pow256(|b|)
  {
    if b == [] then 0 else b[0] + 256 * LittleEndianToInt(b[1..])
  }

  /** The `len` least significant bytes of `n`, least significant first; a
      value that does not fit is cut to its low bytes, as the source's
      unsigned conversion does. */
  function IntToLittleEndian(n: nat, len: nat): (r: seq<uint8>)
    ensures |r| == len
    ensures LittleEndianToInt(r) == n % Pow256(len)
  {
    if len == 0 then []
    else
      var rest := IntToLittleEndian(n / 256, len - 1);
      ModSplit(n, 256, Pow256(len - 1));
      [n % 256] + rest
  }

  /** Decoding what was encoded gives the value back when it fits. */
  lemma {:induction false} LittleEndianRoundTrip(n: nat, len: nat)
    requires n < Pow256(len)
    ensures LittleEndianToInt(IntToLittleEndian(n, len)) == n
  {
    DivModUnique(n, Pow256(len), 0, n);
  }

  /** Encoding a decoded value gives the same bytes back. */
  lemma {:induction false} LittleEndianBytesRoundTrip(b: seq<uint8>)
    ensures IntToLittleEndian(LittleEndianToInt(b), |b|) == b
  {
    if b != [] {
      var n := LittleEndianToInt(b);
      LittleEndianBytesRoundTrip(b[1..]);
      assert n % 256 == b[0] && n / 256 == LittleEndianToInt(b[1..]) by {
        DivModUnique(n, 256, LittleEndianToInt(b[1..]), b[0]);
      }
    }
  }

  /** Reads `n` raw bytes and returns them with the unread rest. */
  function ReadBytes(s: seq<uint8>, n: nat): (r: Result<(seq<uint8>, seq<uint8>)>)
    ensures r.Ok? <==> |s| >= n
    ensures r.Ok? ==> |r.value.0| == n && s == r.value.0 + r.value.1
  {
    if |s| < n then Err(ShortRead) else Ok((s[..n], s[n..]))
  }

  /** Reads `n` bytes as a little-endian integer and returns the unread rest. */
  function ReadLittleEndian(s: seq<uint8>, n: nat): (r: Result<(nat, seq<uint8>)>)
    ensures r.Ok? <==> |s| >= n
    ensures r.Ok? ==> r.value.0 < Pow256(n) && s == IntToLittleEndian(r.value.0, n) + r.value.1
  {
    if |s| < n then Err(ShortRead)
    else
      LittleEndianBytesRoundTrip(s[..n]);
      assert s == s[..n] + s[n..];
      Ok((LittleEndianToInt(s[..n]), s[n..]))
  }

  lemma ReadLittleEndianOf(n: nat, w: nat, rest: seq<uint8>)
    requires n < Pow256(w)
    ensures ReadLittleEndian(IntToLittleEndian(n, w) + rest, w) == Ok((n, rest))
  {
    var s := IntToLittleEndian(n, w) + rest;
    assert s[..w] == IntToLittleEndian(n, w);
    LittleEndianRoundTrip(n, w);
  }

  /** Reads a CompactSize varint: a first byte below 0xfd is the value,
      0xfd, 0xfe and 0xff announce a 2-, 4- or 8-byte little-endian value. */
  function ReadVarint(s: seq<uint8>): (r: Result<(nat, seq<uint8>)>)
    ensures r.Ok? ==> r.value.0 < Pow256(8) && |r.value.1| < |s|
    ensures r.Ok? ==> r.value.1 == s[|s| - |r.value.1|..]
  {
    if |s| == 0 then Err(ShortRead)
    else if s[0] == 0xfd then ReadLittleEndian(s[1..], 2)
    else if s[0] == 0xfe then ReadLittleEndian(s[1..], 4)
    else if s[0] == 0xff then ReadLittleEndian(s[1..], 8)
    else Ok((s[0], s[1..]))
  }

  /** The shortest CompactSize encoding of `n`. */
  function Varint(n: uint64): (r: seq<uint8>)
    ensures 1 <= |r| <= 9
  {
    if n < 0xfd then [n]
    else if n < 0x1_0000 then [0xfd] + IntToLittleEndian(n, 2)
    else if n < 0x1_0000_0000 then [0xfe] + IntToLittleEndian(n, 4)
    else [0xff] + IntToLittleEndian(n, 8)
  }

  /** `encodeVarint`: fails for values of 2^64 and more. */
  function EncodeVarint(n: nat): (r: Result<seq<uint8>>)
    ensures r.Ok? <==> n < 0x1_0000_0000_0000_0000
    ensures r.Ok? ==> |r.value| == (if n < 0xfd then 1 else if n < 0x1_0000 then 3
                                    else if n < 0x1_0000_0000 then 5 else 9)
  {
    if n < 0x1_0000_0000_0000_0000 then Ok(Varint(n)) else Err(EncodeError)
  }

  /** Reading an encoded varint gives the value and leaves what followed it. */
  lemma VarintRoundTrip(n: uint64, rest: seq<uint8>)
    ensures ReadVarint(Varint(n) + rest) == Ok((n, rest))
  {
    PowValues();
    if n >= 0xfd {
      var w := if n < 0x1_0000 then 2 else if n < 0x1_0000_0000 then 4 else 8;
      WideVarintRoundTrip(n, w, rest);
    }
  }

  /** A value behind a 0xfd, 0xfe or 0xff prefix is read from the w bytes
      after it. */
  lemma WideVarintRoundTrip(n: uint64, w: nat, rest: seq<uint8>)
    requires n >= 0xfd
    requires w == (if n < 0x1_0000 then 2 else if n < 0x1_0000_0000 then 4 else 8)
    ensures ReadVarint(Varint(n) + rest) == Ok((n, rest))
  {
    PowValues();
    var s := Varint(n) + rest;
    assert s[1..] == IntToLittleEndian(n, w) + rest;
    ReadLittleEndianOf(n, w, rest);
  }

  /** No input encodes a value in fewer bytes than `Varint` uses for it: the
      encoder always picks the smallest prefix class. */
  lemma VarintIsShortest(s: seq<uint8>)
    requires ReadVarint(s).Ok?
    ensures |s| - |ReadVarint(s).value.1| >= |Varint(ReadVarint(s).value.0)|
  {
    PowValues();
  }

  /** `littleEndianToInt` as ecc/helper.go:101 writes it: the first four
      bytes read most significant first. */
  function LittleEndianToIntAsWritten(b: seq<uint8>): nat
    requires |b| >= 4
  {
    var hi: nat, mid: nat, lo: nat := b[0], b[1], b[2];
    ((hi * 256 + mid) * 256 + lo) * 256 + b[3]
  }

  /** The byte 01 followed by three zeros is 1 little endian, but 2^24 as
      written. */
  lemma AsWrittenReadsBigEndian()
    ensures LittleEndianToInt([1, 0, 0, 0]) == 1
    ensures LittleEndianToIntAsWritten([1, 0, 0, 0]) == 0x100_0000
  {
    assert [1, 0, 0, 0][1..] == [0, 0, 0];
    assert [0, 0, 0][1..] == [0, 0];
    assert [0, 0][1..] == [0];
  }

  /** `encodeVarint` as ecc/helper.go:141-151 write it: a value below 0xfd
      becomes four bytes, most significant first, and each wider prefix is
      the string literal "\u00fd", "\u00fe" or "\u00ff", whose UTF-8 form is
      the two bytes c3 bd, c3 be or c3 bf. */
  function EncodeVarintAsWritten(n: nat): (r: Result<seq<uint8>>)
    ensures r.Ok? <==> EncodeVarint(n).Ok?
    ensures r.Ok? ==> |r.value| == |EncodeVarint(n).value| + (if n < 0xfd then 3 else 1)
  {
    if n < 0xfd then Ok([0, 0, 0, n])
    else if n < 0x1_0000 then Ok([0xc3, 0xbd] + IntToLittleEndian(n, 2))
    else if n < 0x1_0000_0000 then Ok([0xc3, 0xbe] + IntToLittleEndian(n, 4))
    else if n < 0x1_0000_0000_0000_0000 then Ok([0xc3, 0xbf] + IntToLittleEndian(n, 8))
    else Err(EncodeError)
  }

  /** Every wide value encoded as written reads back as 0xc3 (195), the first
      byte of its two-byte prefix, with the rest of the encoding unread. */
  lemma AsWrittenWideVarintMisread(n: nat)
    requires 0xfd <= n < 0x1_0000_0000_0000_0000
    ensures ReadVarint(EncodeVarintAsWritten(n).value) == Ok((195, EncodeVarintAsWritten(n).value[1..]))
    ensures ReadVarint(EncodeVarint(n).value) == Ok((n, []))
  {
    VarintRoundTrip(n, []);
    assert Varint(n) + [] == Varint(n);
  }

  /** Every small value encoded as written reads back as 0, three bytes too
      early. */
  lemma AsWrittenSmallVarintMisread(n: nat)
    requires n < 0xfd
    ensures ReadVarint(EncodeVarintAsWritten(n).value) == Ok((0, [0, 0, n]))
  {
    assert [0, 0, 0, n][1..] == [0, 0, n];
  }
}
