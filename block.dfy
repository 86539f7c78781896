/** The 80-byte block header (ecc/block.go): its wire layout, its hash, the
    version-bit signals and the proof-of-work check. */
module Block {
  import opened Common
  import opened Codec
  import opened Target

  /** A 4-byte field kept as raw bytes. */
  type Nonce = s: seq<uint8> | |s| == 4 witness [0, 0, 0, 0]

  /** A block header. The two hashes are held in display order, the
      reverse of their order on the wire. */
  datatype BlockHeader = BlockHeader(
    version: uint32,
    prevBlock: Digest,
    merkleRoot: Digest,
    timestamp: uint32,
    bits: Bits,
    nonce: Nonce)

  const HEADER_SIZE: nat := 80

  /** `parse`: a 4-byte little-endian version, the previous block and the
      Merkle root (32 bytes each, reversed into display order), a 4-byte
      little-endian timestamp, then bits and nonce as raw bytes. Input
      shorter than a header fails. */
  function ParseHeader(s: seq<uint8>): (r: Result<(BlockHeader, seq<uint8>)>)
    ensures r.Ok? <==> |s| >= HEADER_SIZE
    ensures r.Ok? ==> r.value.1 == s[HEADER_SIZE..]
  {
    if |s| < HEADER_SIZE then Err(ShortRead)
    else
      PowValues();
      var version := LittleEndianToInt(s[..4]);
      var timestamp := LittleEndianToInt(s[68..72]);
      Ok((BlockHeader(version, Reverse(s[4..36]), Reverse(s[36..68]), timestamp, s[72..76], s[76..80]), s[80..]))
  }

  /** `serialize`, as the layout `parse` reads: the hashes go back to wire
      order. */
  function Serialize(b: BlockHeader): (r: seq<uint8>)
    ensures |r| == HEADER_SIZE
  {
    IntToLittleEndian(b.version, 4) + Reverse(b.prevBlock) + Reverse(b.merkleRoot) +
    IntToLittleEndian(b.timestamp, 4) + b.bits + b.nonce
  }

  /** `serialize` as ecc/block.go:48-49 write it: the hashes are appended
      in display order, without undoing the reversal `parse` applied. */
  function SerializeAsWritten(b: BlockHeader): (r: seq<uint8>)
    ensures |r| == HEADER_SIZE
  {
    IntToLittleEndian(b.version, 4) + b.prevBlock + b.merkleRoot +
    IntToLittleEndian(b.timestamp, 4) + b.bits + b.nonce
  }

  /** The header parsed from 80 bytes laid out field by field. */
  lemma ParseFields(version: uint32, prev: Digest, root: Digest, timestamp: uint32, bits: Bits, nonce: Nonce,
                    rest: seq<uint8>)
    ensures ParseHeader(IntToLittleEndian(version, 4) + prev + root + IntToLittleEndian(timestamp, 4) + bits + nonce + rest)
         == Ok((BlockHeader(version, Reverse(prev), Reverse(root), timestamp, bits, nonce), rest))
  {
    var v := IntToLittleEndian(version, 4);
    var t := IntToLittleEndian(timestamp, 4);
    var s := v + prev + root + t + bits + nonce + rest;
    assert s[..4] == v && s[4..36] == prev && s[36..68] == root;
    assert s[68..72] == t && s[72..76] == bits && s[76..80] == nonce && s[80..] == rest;
    PowValues();
    LittleEndianRoundTrip(version, 4);
    LittleEndianRoundTrip(timestamp, 4);
  }

  /** Parsing a serialized header gives it back, and the bytes after it. */
  lemma ParseSerialize(b: BlockHeader, rest: seq<uint8>)
    ensures ParseHeader(Serialize(b) + rest) == Ok((b, rest))
  {
    ParseFields(b.version, Reverse(b.prevBlock), Reverse(b.merkleRoot), b.timestamp, b.bits, b.nonce, rest);
    ReverseReverse(b.prevBlock);
    ReverseReverse(b.merkleRoot);
  }

  /** Serializing a parsed header gives back the 80 bytes it came from. */
  lemma SerializeParse(s: seq<uint8>)
    requires |s| >= HEADER_SIZE
    ensures Serialize(ParseHeader(s).value.0) == s[..HEADER_SIZE]
  {
    var b := ParseHeader(s).value.0;
    var h := s[..HEADER_SIZE];
    assert IntToLittleEndian(b.version, 4) == s[..4] by {
      LittleEndianBytesRoundTrip(s[..4]);
    }
    assert IntToLittleEndian(b.timestamp, 4) == s[68..72] by {
      LittleEndianBytesRoundTrip(s[68..72]);
    }
    assert Reverse(b.prevBlock) == s[4..36] by {
      ReverseReverse(s[4..36]);
    }
    assert Reverse(b.merkleRoot) == s[36..68] by {
      ReverseReverse(s[36..68]);
    }
    assert h == s[..4] + s[4..36] + s[36..68] + s[68..72] + s[72..76] + s[76..80];
  }

  /** What the serialization of ecc/block.go:48-49 parses back to: both
      hashes come out reversed. */
  lemma AsWrittenReversesHashes(b: BlockHeader, rest: seq<uint8>)
    ensures ParseHeader(SerializeAsWritten(b) + rest)
         == Ok((b.(prevBlock := Reverse(b.prevBlock), merkleRoot := Reverse(b.merkleRoot)), rest))
  {
    ParseFields(b.version, b.prevBlock, b.merkleRoot, b.timestamp, b.bits, b.nonce, rest);
  }

  /** A header whose previous-block hash is not a palindrome does not
      survive the round trip through the serialization as written. */
  lemma AsWrittenRoundTripFails()
    ensures var b := BlockHeader(0, OneFirst(), ZeroDigest(), 0, [0, 0, 0, 0], [0, 0, 0, 0]);
            ParseHeader(SerializeAsWritten(b)) != Ok((b, []))
  {
    var p := OneFirst();
    var b := BlockHeader(0, p, ZeroDigest(), 0, [0, 0, 0, 0], [0, 0, 0, 0]);
    AsWrittenReversesHashes(b, []);
    assert SerializeAsWritten(b) + [] == SerializeAsWritten(b);
    assert Reverse(p)[31] == p[0] != p[31];
  }

  /** The digest 01 00 .. 00. */
  function OneFirst(): (d: Digest)
    ensures d[0] == 1 && d[31] == 0
  {
    [1] + ZeroDigest()[1..]
  }

  /** `hash`: double SHA-256 of the serialization. */
  function Hash(hash256: Hasher, b: BlockHeader): Digest
  {
    hash256(Serialize(b))
  }

  /** The hash of a parsed header is the hash of the 80 bytes it was read from. */
  lemma HashOfParsed(hash256: Hasher, s: seq<uint8>)
    requires |s| >= HEADER_SIZE
    ensures Hash(hash256, ParseHeader(s).value.0) == hash256(s[..HEADER_SIZE])
  {
    SerializeParse(s);
  }

  /** `bip9`: the top three bits of the version are 001. */
  predicate Bip9(b: BlockHeader)
  {
    b.version / 0x2000_0000 == 1
  }

  /** `bip91`: bit 4 of the version is set. */
  predicate Bip91(b: BlockHeader)
  {
    (b.version / 16) % 2 == 1
  }

  /** `bip141`: bit 1 of the version is set. */
  predicate Bip141(b: BlockHeader)
  {
    (b.version / 2) % 2 == 1
  }

  /** The first wire byte of a 32-bit word is its low byte. */
  lemma LowByte(v: uint32)
    ensures IntToLittleEndian(v, 4)[0] == v % 256
  {
  }

  /** The last wire byte of a 32-bit word is its high byte. */
  lemma HighByte(v: uint32)
    ensures IntToLittleEndian(v, 4)[3] == v / 0x100_0000
  {
    var q := v / 256 / 256 / 256;
    assert IntToLittleEndian(v, 4)[3] == IntToLittleEndian(v / 256, 3)[2];
    assert IntToLittleEndian(v / 256, 3)[2] == IntToLittleEndian(v / 256 / 256, 2)[1];
    assert IntToLittleEndian(v / 256 / 256, 2)[1] == IntToLittleEndian(q, 1)[0] == q % 256;
    ModSplit(v, 256, 256);
    ModSplit(v, 256 * 256, 256);
    assert q == v / 0x100_0000;
  }

  /** BIP 9 read off the wire: the top three bits of byte 3 are 001. */
  lemma Bip9Byte(b: BlockHeader)
    ensures Bip9(b) <==> Serialize(b)[3] / 32 == 1
  {
    HighByte(b.version);
    assert Serialize(b)[3] == IntToLittleEndian(b.version, 4)[3];
    ModSplit(b.version, 0x100_0000, 32);
  }

  /** BIP 91 and BIP 141 read off the wire: bits 4 and 1 of byte 0. */
  lemma LowSignalBytes(b: BlockHeader)
    ensures Bip91(b) <==> (Serialize(b)[0] / 16) % 2 == 1
    ensures Bip141(b) <==> (Serialize(b)[0] / 2) % 2 == 1
  {
    var v := b.version;
    LowByte(v);
    assert Serialize(b)[0] == v % 256;
    SignalBit(v, 16, 16);
    SignalBit(v, 2, 128);
  }

  /** Bit k of v is bit k of v's low byte, for 2^k = m and m·p = 256. */
  lemma SignalBit(v: nat, m: nat, p: nat)
    requires m >= 1 && p >= 2 && p % 2 == 0 && m * p == 256
    ensures (v / m) % 2 == ((v % 256) / m) % 2
  {
    var a, r := v / 256, v % 256;
    var c := r / m;
    assert r == m * c + r % m;
    assert v == 256 * a + r;
    assert 256 * a == m * (p * a);
    assert v == m * (p * a + c) + r % m;
    DivModUnique(v, m, p * a + c, r % m);
    assert p * a == 2 * ((p / 2) * a);
    DivModUnique(p * a + c, 2, (p / 2) * a + c / 2, c % 2);
  }

  /** `target`: the target the compact bits encode. */
  function HeaderTarget(b: BlockHeader): nat
  {
    BitsToTarget(b.bits)
  }

  /** `checkPow`: the hash, read as a little-endian integer, is below the target. */
  predicate CheckPow(hash256: Hasher, b: BlockHeader)
  {
    LittleEndianToInt(Hash(hash256, b)) < HeaderTarget(b)
  }

  /** Proof of work judged on the raw header bytes: the hash of the 80 bytes
      is below the target of bytes 72..76. */
  lemma CheckPowOfBytes(hash256: Hasher, s: seq<uint8>)
    requires |s| >= HEADER_SIZE
    ensures CheckPow(hash256, ParseHeader(s).value.0) <==>
            LittleEndianToInt(hash256(s[..HEADER_SIZE])) < BitsToTarget(s[72..76])
  {
    SerializeParse(s);
  }
}
