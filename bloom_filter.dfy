/** The BIP 37 bloom filter (ecc/bloomFilter.go): a field of size·8 bits,
    all clear at first, in which `add` sets one bit per hash function, and
    the `filterload` payload that sends the field to a peer. */
module Bloom {
  import opened Common
  import opened Codec
  import opened BitField

  /** The multiplier that spreads the seeds of the hash functions. */
  const BIP37_CONSTANT: nat := 0xFBA4_C795

  /** The command name `filterload` in ASCII. */
  const FILTERLOAD: seq<uint8> := [0x66, 0x69, 0x6c, 0x74, 0x65, 0x72, 0x6c, 0x6f, 0x61, 0x64]

  /** `GenericMessage`: a command name and a payload sent as they are. */
  datatype GenericMessage = GenericMessage(command: seq<uint8>, payload: seq<uint8>)

  /** The seed of hash function i. */
  function Seed(i: nat, tweak: nat): nat
  {
    i * BIP37_CONSTANT + tweak
  }

  /** The bit hash function i picks for an item in a field of size·8 bits. */
  function Probe(murmur: Murmur, item: seq<uint8>, i: nat, tweak: nat, size: nat): (r: nat)
    requires size > 0
    ensures r < 8 * size
  {
    murmur(item, Seed(i, tweak)) % (8 * size)
  }

  /** The bits the first k hash functions pick for an item. */
  function Probes(murmur: Murmur, item: seq<uint8>, k: nat, tweak: nat, size: nat): (r: set<nat>)
    requires size > 0
    ensures forall j :: j in r ==> j < 8 * size
  {
    set i | 0 <= i < k :: Probe(murmur, item, i, tweak, size)
  }

  /** One hash function more picks one bit more. */
  lemma ProbesNext(murmur: Murmur, item: seq<uint8>, k: nat, tweak: nat, size: nat)
    requires size > 0
    ensures Probes(murmur, item, k + 1, tweak, size) ==
            Probes(murmur, item, k, tweak, size) + {Probe(murmur, item, k, tweak, size)}
  {
    var p := Probe(murmur, item, k, tweak, size);
    assert p in Probes(murmur, item, k + 1, tweak, size);
  }

  /** The field with the given bits set and all others as they were. */
  function SetBits(bits: seq<int>, positions: set<nat>): (r: seq<int>)
    ensures |r| == |bits|
  {
    seq(|bits|, j requires 0 <= j < |bits| => if j in positions then 1 else bits[j])
  }

  /** Every bit hash functions 0..k-1 pick for the item is set: what a peer
      tests before it forwards a transaction touching the item. */
  predicate MayContain(bits: seq<int>, murmur: Murmur, item: seq<uint8>, k: nat, tweak: nat, size: nat)
    requires size > 0 && |bits| == 8 * size
  {
    forall i :: 0 <= i < k ==> bits[Probe(murmur, item, i, tweak, size)] == 1
  }

  /** An added item is reported as possibly present: no false negatives. */
  lemma AddedIsContained(bits: seq<int>, murmur: Murmur, item: seq<uint8>, k: nat, tweak: nat, size: nat)
    requires size > 0 && |bits| == 8 * size
    ensures MayContain(SetBits(bits, Probes(murmur, item, k, tweak, size)), murmur, item, k, tweak, size)
  {
    var p := Probes(murmur, item, k, tweak, size);
    forall i | 0 <= i < k
      ensures SetBits(bits, p)[Probe(murmur, item, i, tweak, size)] == 1
    {
      assert Probe(murmur, item, i, tweak, size) in p;
    }
  }

  /** Setting bits never clears one: an item added earlier stays reported. */
  lemma SetBitsKeepsContained(bits: seq<int>, positions: set<nat>, murmur: Murmur, item: seq<uint8>,
                              k: nat, tweak: nat, size: nat)
    requires size > 0 && |bits| == 8 * size
    requires MayContain(bits, murmur, item, k, tweak, size)
    ensures MayContain(SetBits(bits, positions), murmur, item, k, tweak, size)
  {
    var r := SetBits(bits, positions);
    forall i | 0 <= i < k
      ensures r[Probe(murmur, item, i, tweak, size)] == 1
    {
      var j := Probe(murmur, item, i, tweak, size);
      assert bits[j] == 1;
    }
  }

  /** Setting bits keeps every set bit set and changes no bit outside the
      positions. */
  lemma SetBitsOnlyGains(bits: seq<int>, positions: set<nat>)
    ensures forall j :: 0 <= j < |bits| && bits[j] == 1 ==> SetBits(bits, positions)[j] == 1
    ensures forall j :: 0 <= j < |bits| && j !in positions ==> SetBits(bits, positions)[j] == bits[j]
    ensures IsBits(bits) ==> IsBits(SetBits(bits, positions))
  {
  }

  /** Setting the same bits twice is setting them once. */
  lemma SetBitsIdempotent(bits: seq<int>, positions: set<nat>)
    ensures SetBits(SetBits(bits, positions), positions) == SetBits(bits, positions)
  {
  }

  /** Setting no bits changes nothing. */
  lemma SetNoBits(bits: seq<int>)
    ensures SetBits(bits, {}) == bits
  {
  }

  /** Setting the positions of several calls one after the other is setting
      their union. */
  lemma SetBitsTwice(bits: seq<int>, p: set<nat>, q: set<nat>)
    ensures SetBits(SetBits(bits, p), q) == SetBits(bits, p + q)
  {
  }

  /** Writing 1 at one more position. */
  lemma SetOneBit(bits: seq<int>, positions: set<nat>, x: nat)
    requires x < |bits|
    ensures SetBits(bits, positions)[x := 1] == SetBits(bits, positions + {x})
  {
  }

  /** The `filterload` payload: the size as a varint, the packed field, the
      number of hash functions and the tweak (4 bytes little endian each) and
      the flag byte. A size that no varint holds cannot be sent. */
  function FilterLoadPayload(size: nat, bits: seq<int>, k: nat, tweak: nat, flag: nat): (r: Result<seq<uint8>>)
    requires |bits| == 8 * size
    ensures r.Ok? <==> size < 0x1_0000_0000_0000_0000
  {
    var prefix :- EncodeVarint(size);
    Ok(prefix + PackBits(bits) + IntToLittleEndian(k, 4) + IntToLittleEndian(tweak, 4) + IntToLittleEndian(flag, 1))
  }

  /** How a peer reads a `filterload` payload: the size, the bit field, the
      number of hash functions, the tweak and the flag. */
  function ParseFilterLoad(p: seq<uint8>): Result<(nat, seq<int>, nat, nat, nat)>
  {
    var size :- ReadVarint(p);
    var field :- ReadBytes(size.1, size.0);
    var trailer :- ParseTrailer(field.1);
    Ok((size.0, UnpackBits(field.0), trailer.0, trailer.1, trailer.2))
  }

  /** The number of hash functions, the tweak and the flag. */
  function ParseTrailer(t: seq<uint8>): Result<(nat, nat, nat)>
  {
    var k :- ReadLittleEndian(t, 4);
    var tweak :- ReadLittleEndian(k.1, 4);
    var flag :- ReadLittleEndian(tweak.1, 1);
    Ok((k.0, tweak.0, flag.0))
  }

  /** The three trailing fields read back, each cut to its width. */
  lemma TrailerDecodes(k: nat, tweak: nat, flag: nat)
    ensures ParseTrailer(IntToLittleEndian(k, 4) + IntToLittleEndian(tweak, 4) + IntToLittleEndian(flag, 1))
         == Ok((k % 0x1_0000_0000, tweak % 0x1_0000_0000, flag % 0x100))
  {
    PowValues();
    var a, b, c := IntToLittleEndian(k, 4), IntToLittleEndian(tweak, 4), IntToLittleEndian(flag, 1);
    var t := a + b + c;
    ReadLittleEndianOf(k % 0x1_0000_0000, 4, b + c);
    ReadLittleEndianOf(tweak % 0x1_0000_0000, 4, c);
    ReadLittleEndianOf(flag % 0x100, 1, []);
    assert t == a + (b + c) && c + [] == c;
  }

  /** The payload frame read back: the size, the field, the trailer. */
  lemma PayloadFrame(size: uint64, packed: seq<uint8>, t: seq<uint8>, trailer: (nat, nat, nat))
    requires |packed| == size && ParseTrailer(t) == Ok(trailer)
    ensures ParseFilterLoad(Varint(size) + (packed + t)) ==
            Ok((size, UnpackBits(packed), trailer.0, trailer.1, trailer.2))
  {
    VarintRoundTrip(size, packed + t);
    assert ReadBytes(packed + t, size) == Ok((packed, t));
  }

  /** A peer reading the payload recovers the size and the bit field, and
      the function count, tweak and flag cut to their widths. */
  lemma FilterLoadDecodes(size: nat, bits: seq<int>, k: nat, tweak: nat, flag: nat)
    requires |bits| == 8 * size && IsBits(bits) && size < 0x1_0000_0000_0000_0000
    ensures ParseFilterLoad(FilterLoadPayload(size, bits, k, tweak, flag).value) ==
            Ok((size, bits, k % 0x1_0000_0000, tweak % 0x1_0000_0000, flag % 0x100))
  {
    var packed := PackBits(bits);
    var t := IntToLittleEndian(k, 4) + IntToLittleEndian(tweak, 4) + IntToLittleEndian(flag, 1);
    var trailer := (k % 0x1_0000_0000, tweak % 0x1_0000_0000, flag % 0x100);
    assert FilterLoadPayload(size, bits, k, tweak, flag).value == Varint(size) + (packed + t);
    assert ParseTrailer(t) == Ok(trailer) by { TrailerDecodes(k, tweak, flag); }
    assert UnpackBits(packed) == bits by { BitsRoundTrip(bits); }
    PayloadFrame(size, packed, t, trailer);
  }

  /** `BloomFilter`: the size in bytes, the number of hash functions, the
      tweak and the bit field, one array element per bit. */
  class BloomFilter {
    const size: nat
    const functionCount: nat
    const tweak: nat
    const bitField: array<int>

    /** The field has size·8 bits, each 0 or 1. */
    predicate Valid()
      reads this, bitField
    {
      bitField.Length == 8 * size && IsBits(bitField[..])
    }

    /** `NewBloomFilter`: size·8 clear bits. */
    constructor (size: nat, functionCount: nat, tweak: nat)
      ensures Valid() && fresh(bitField)
      ensures this.size == size && this.functionCount == functionCount && this.tweak == tweak
      ensures bitField[..] == seq(8 * size, _ => 0)
    {
      this.size := size;
      this.functionCount := functionCount;
      this.tweak := tweak;
      bitField := new int[8 * size](_ => 0);
    }

    /** `add`: sets the bit each hash function picks for the item. With no
        hash functions nothing happens; with hash functions and an empty
        field there is no bit to pick, which the source does not survive. */
    method Add(murmur: Murmur, item: seq<uint8>) returns (r: Result<()>)
      requires Valid()
      modifies bitField
      ensures Valid()
      ensures r.Err? <==> size == 0 && functionCount > 0
      ensures r.Err? ==> r.error == ZeroSize && bitField[..] == old(bitField[..])
      ensures r.Ok? && size > 0 ==>
        bitField[..] == SetBits(old(bitField[..]), Probes(murmur, item, functionCount, tweak, size))
      ensures size == 0 ==> bitField[..] == old(bitField[..])
    {
      if functionCount == 0 {
        return Ok(());
      }
      if size == 0 {
        return Err(ZeroSize);
      }
      ghost var before := bitField[..];
      var i := 0;
      while i < functionCount
        invariant 0 <= i <= functionCount
        invariant bitField[..] == SetBits(before, Probes(murmur, item, i, tweak, size))
      {
        var bit := murmur(item, i * BIP37_CONSTANT + tweak) % (size * 8);
        assert bit == Probe(murmur, item, i, tweak, size);
        ProbesNext(murmur, item, i, tweak, size);
        SetOneBit(before, Probes(murmur, item, i, tweak, size), bit);
        bitField[bit] := 1;
        i := i + 1;
      }
      SetBitsOnlyGains(before, Probes(murmur, item, functionCount, tweak, size));
      return Ok(());
    }

    /** `filterBytes`: the field packed eight bits to a byte. */
    method FilterBytes() returns (r: seq<uint8>)
      requires Valid()
      ensures |r| == size
      ensures UnpackBits(r) == bitField[..]
    {
      var packed := BitFieldToBytes(bitField[..]);
      BitsRoundTrip(bitField[..]);
      return packed.value;
    }

    /** `filterload`: the payload built by appends, sent under the
        `filterload` command. */
    method FilterLoad(flag: nat) returns (r: Result<GenericMessage>)
      requires Valid()
      ensures r.Ok? <==> FilterLoadPayload(size, bitField[..], functionCount, tweak, flag).Ok?
      ensures r.Ok? ==> r.value == GenericMessage(FILTERLOAD, FilterLoadPayload(size, bitField[..], functionCount, tweak, flag).value)
    {
      var payload :- EncodeVarint(size);
      var field := FilterBytes();
      BytesRoundTrip(field);
      payload := payload + field;
      payload := payload + IntToLittleEndian(functionCount, 4);
      payload := payload + IntToLittleEndian(tweak, 4);
      payload := payload + IntToLittleEndian(flag, 1);
      return Ok(GenericMessage(FILTERLOAD, payload));
    }
  }
}
