/** The BIP 37 merkleblock message (ecc/merkelblock.go): a block header,
    the number of transactions in the block, and a partial Merkle tree given
    as hashes and flag bytes; its validity is the partial tree's root
    matching the header's Merkle root. */
module MerkleBlockMessage {
  import opened Common
  import opened Codec
  import opened BitField
  import Block
  import PartialMerkle
  import Merkle
  import FullTree

  /** A merkleblock message. The hashes are held in display order, each the
      reverse of its bytes on the wire. */
  datatype MerkleBlock = MerkleBlock(header: Block.BlockHeader, total: uint32, hashes: seq<Digest>, flags: seq<uint8>)

  /** `count` hashes of 32 bytes, each reversed into display order, and the
      unread rest. */
  function ReadHashes(s: seq<uint8>, count: nat): (r: Result<(seq<Digest>, seq<uint8>)>)
    ensures r.Ok? <==> |s| >= 32 * count
    ensures r.Err? ==> r == Err(ShortRead)
    ensures r.Ok? ==> |r.value.0| == count && r.value.1 == s[32 * count..]
    decreases count
  {
    if count == 0 then Ok(([], s))
    else if |s| < 32 then Err(ShortRead)
    else
      var tail :- ReadHashes(s[32..], count - 1);
      Ok(([Reverse(s[..32])] + tail.0, tail.1))
  }

  /** Hash j read by `ReadHashes` is the reverse of the j-th 32-byte chunk. */
  lemma {:induction false} ReadHashesAt(s: seq<uint8>, count: nat, j: nat)
    requires |s| >= 32 * count && j < count
    ensures ReadHashes(s, count).value.0[j] == Reverse(s[32 * j..32 * j + 32])
    decreases count
  {
    var tail := ReadHashes(s[32..], count - 1).value;
    if j == 0 {
      assert ReadHashes(s, count).value.0[0] == Reverse(s[..32]);
    } else {
      assert ReadHashes(s, count).value.0[j] == tail.0[j - 1];
      ReadHashesAt(s[32..], count - 1, j - 1);
      ChunkShift(s, j);
    }
  }

  /** Chunk j - 1 after the first chunk is chunk j. */
  lemma ChunkShift(s: seq<uint8>, j: nat)
    requires j >= 1 && |s| >= 32 * j + 32
    ensures s[32..][32 * (j - 1)..32 * (j - 1) + 32] == s[32 * j..32 * j + 32]
  {
  }

  /** One hash more: what the source's loop does per iteration. */
  lemma {:induction false} ReadHashesSnoc(s: seq<uint8>, i: nat, hashes: seq<Digest>, rest: seq<uint8>)
    requires ReadHashes(s, i) == Ok((hashes, rest)) && |rest| >= 32
    ensures ReadHashes(s, i + 1) == Ok((hashes + [Reverse(rest[..32])], rest[32..]))
    decreases i
  {
    var h := Reverse(rest[..32]);
    if i == 0 {
      assert hashes == [] && rest == s;
      assert ReadHashes(s[32..], 0) == Ok(([], s[32..]));
      assert [h] + [] == hashes + [h];
    } else {
      var tail := ReadHashes(s[32..], i - 1).value;
      var first := Reverse(s[..32]);
      assert hashes == [first] + tail.0 && rest == tail.1;
      ReadHashesSnoc(s[32..], i - 1, tail.0, tail.1);
      assert ReadHashes(s[32..], i) == Ok((tail.0 + [h], rest[32..]));
      assert [first] + (tail.0 + [h]) == hashes + [h];
    }
  }

  /** The hashes on the wire: each one reversed, one after the other. */
  function WireHashes(hashes: seq<Digest>): (r: seq<uint8>)
    ensures |r| == 32 * |hashes|
  {
    if hashes == [] then [] else Reverse(hashes[0]) + WireHashes(hashes[1..])
  }

  /** Reading back written hashes gives them and what followed. */
  lemma {:induction false} ReadWireHashes(hashes: seq<Digest>, rest: seq<uint8>)
    ensures ReadHashes(WireHashes(hashes) + rest, |hashes|) == Ok((hashes, rest))
  {
    if hashes != [] {
      var h, t := hashes[0], WireHashes(hashes[1..]) + rest;
      var s := WireHashes(hashes) + rest;
      assert s[..32] == Reverse(h) && s[32..] == t by {
        assert s == Reverse(h) + t;
      }
      assert Reverse(s[..32]) == h by {
        ReverseReverse(h);
      }
      assert ReadHashes(t, |hashes| - 1) == Ok((hashes[1..], rest)) by {
        ReadWireHashes(hashes[1..], rest);
      }
      assert [h] + hashes[1..] == hashes;
    }
  }

  /** A varint number of hashes followed by the hashes. */
  function ParseHashList(s: seq<uint8>): (r: Result<(seq<Digest>, seq<uint8>)>)
  {
    var count :- ReadVarint(s);
    ReadHashes(count.1, count.0)
  }

  /** A varint number of flag bytes followed by the flag bytes. */
  function ParseFlags(s: seq<uint8>): (r: Result<(seq<uint8>, seq<uint8>)>)
  {
    var n :- ReadVarint(s);
    ReadBytes(n.1, n.0)
  }

  /** `parse`: the 80-byte header, the transaction count (4 bytes little
      endian), the hash list and the flag bytes. */
  function ParseMerkleBlock(s: seq<uint8>): (r: Result<(MerkleBlock, seq<uint8>)>)
    ensures r.Ok? ==> WellSized(r.value.0) && |r.value.1| < |s| - Block.HEADER_SIZE - 4
  {
    var header :- Block.ParseHeader(s);
    var total :- ReadLittleEndian(header.1, 4);
    PowValues();
    var hashes :- ParseHashList(total.1);
    var flags :- ParseFlags(hashes.1);
    Ok((MerkleBlock(header.0, total.0, hashes.0, flags.0), flags.1))
  }

  /** The hash list read one hash per iteration, as the source's loop does. */
  method ReadHashList(s: seq<uint8>) returns (r: Result<(seq<Digest>, seq<uint8>)>)
    ensures r == ParseHashList(s)
  {
    var count :- ReadVarint(s);
    var start := count.1;
    var hashes: seq<Digest> := [];
    var rest := start;
    var i := 0;
    while i < count.0
      invariant 0 <= i <= count.0
      invariant ReadHashes(start, i) == Ok((hashes, rest))
    {
      if |rest| < 32 {
        assert |start| < 32 * count.0;
        return Err(ShortRead);
      }
      ReadHashesSnoc(start, i, hashes, rest);
      hashes := hashes + [Reverse(rest[..32])];
      rest := rest[32..];
      i := i + 1;
    }
    return Ok((hashes, rest));
  }

  /** `parse`, with the hash list read by the loop. */
  method Parse(s: seq<uint8>) returns (r: Result<(MerkleBlock, seq<uint8>)>)
    ensures r == ParseMerkleBlock(s)
  {
    var header :- Block.ParseHeader(s);
    var total :- ReadLittleEndian(header.1, 4);
    PowValues();
    var hashes :- ReadHashList(total.1);
    var flags :- ParseFlags(hashes.1);
    return Ok((MerkleBlock(header.0, total.0, hashes.0, flags.0), flags.1));
  }

  /** The counts of a message fit a varint. */
  predicate WellSized(mb: MerkleBlock)
  {
    |mb.hashes| < 0x1_0000_0000_0000_0000 && |mb.flags| < 0x1_0000_0000_0000_0000
  }

  /** The layout `parse` reads. */
  function Serialize(mb: MerkleBlock): seq<uint8>
    requires WellSized(mb)
  {
    Block.Serialize(mb.header) + IntToLittleEndian(mb.total, 4) +
    (Varint(|mb.hashes|) + WireHashes(mb.hashes)) + (Varint(|mb.flags|) + mb.flags)
  }

  lemma HashListRoundTrip(hashes: seq<Digest>, rest: seq<uint8>)
    requires |hashes| < 0x1_0000_0000_0000_0000
    ensures ParseHashList(Varint(|hashes|) + (WireHashes(hashes) + rest)) == Ok((hashes, rest))
  {
    var hs := WireHashes(hashes) + rest;
    assert ReadVarint(Varint(|hashes|) + hs) == Ok((|hashes|, hs)) by {
      VarintRoundTrip(|hashes|, hs);
    }
    assert ReadHashes(hs, |hashes|) == Ok((hashes, rest)) by {
      ReadWireHashes(hashes, rest);
    }
  }

  lemma FlagsRoundTrip(flags: seq<uint8>, rest: seq<uint8>)
    requires |flags| < 0x1_0000_0000_0000_0000
    ensures ParseFlags(Varint(|flags|) + flags + rest) == Ok((flags, rest))
  {
    assert Varint(|flags|) + flags + rest == Varint(|flags|) + (flags + rest);
    VarintRoundTrip(|flags|, flags + rest);
    assert (flags + rest)[..|flags|] == flags;
  }

  /** Parsing a serialized message gives it back, and the bytes after it. */
  lemma ParseSerialize(mb: MerkleBlock, rest: seq<uint8>)
    requires WellSized(mb)
    ensures ParseMerkleBlock(Serialize(mb) + rest) == Ok((mb, rest))
  {
    var fs := Varint(|mb.flags|) + mb.flags + rest;
    var cs := Varint(|mb.hashes|) + (WireHashes(mb.hashes) + fs);
    var ts := IntToLittleEndian(mb.total, 4) + cs;
    assert Serialize(mb) + rest == Block.Serialize(mb.header) + ts;
    Block.ParseSerialize(mb.header, ts);
    TotalStage(mb.total, cs);
    HashListRoundTrip(mb.hashes, fs);
    FlagsRoundTrip(mb.flags, rest);
    ParseStages(Serialize(mb) + rest, mb, ts, cs, fs, rest);
  }

  lemma TotalStage(total: uint32, cs: seq<uint8>)
    ensures ReadLittleEndian(IntToLittleEndian(total, 4) + cs, 4) == Ok((total as nat, cs))
  {
    PowValues();
    ReadLittleEndianOf(total, 4, cs);
  }

  /** A message whose four parts each read back is read back whole. */
  lemma ParseStages(s: seq<uint8>, mb: MerkleBlock, ts: seq<uint8>, cs: seq<uint8>, fs: seq<uint8>, rest: seq<uint8>)
    requires Block.ParseHeader(s) == Ok((mb.header, ts))
    requires ReadLittleEndian(ts, 4) == Ok((mb.total as nat, cs))
    requires ParseHashList(cs) == Ok((mb.hashes, fs))
    requires ParseFlags(fs) == Ok((mb.flags, rest))
    ensures ParseMerkleBlock(s) == Ok((mb, rest))
  {
  }

  /** Each hash reversed: display order to the internal order hashes are
      combined in, and back. */
  function FlipAll(hashes: seq<Digest>): (r: seq<Digest>)
    ensures |r| == |hashes|
    ensures forall j :: 0 <= j < |hashes| ==> r[j] == Reverse(hashes[j])
  {
    seq(|hashes|, j requires 0 <= j < |hashes| => Reverse(hashes[j]))
  }

  lemma FlipAllTwice(hashes: seq<Digest>)
    ensures FlipAll(FlipAll(hashes)) == hashes
  {
    forall j | 0 <= j < |hashes|
      ensures FlipAll(FlipAll(hashes))[j] == hashes[j]
    {
      ReverseReverse(hashes[j]);
    }
  }

  /** The level widths of the tree over `total` transactions. */
  function Widths(total: nat): (r: seq<nat>)
    ensures |r| >= 1
  {
    PartialMerkle.LevelWidths(total, PartialMerkle.CeilLog2(total))
  }

  /** What `isValid` answers: a message announcing no transactions has no
      tree; a malformed partial tree is an error; otherwise whether the
      root rebuilt from the flag bits and the hashes (in internal order) is,
      in display order, the header's Merkle root. */
  function Verdict(hash256: Hasher, mb: MerkleBlock): Result<bool>
  {
    if mb.total == 0 then Err(ProofMalformed)
    else
      var root :- PartialMerkle.Populate(hash256, Widths(mb.total), UnpackBits(mb.flags), FlipAll(mb.hashes));
      Ok(Reverse(root) == mb.header.merkleRoot)
  }

  /** `isValid`: unpacks the flags, reverses the hashes, fills a fresh tree
      and compares its root with the header's. */
  method IsValid(hash256: Hasher, mb: MerkleBlock) returns (r: Result<bool>)
    ensures r == Verdict(hash256, mb)
  {
    if mb.total == 0 {
      return Err(ProofMalformed);
    }
    var flagBits := BytesToBitField(mb.flags);
    var hashes: seq<Digest> := [];
    var i := 0;
    while i < |mb.hashes|
      invariant 0 <= i <= |mb.hashes| && |hashes| == i
      invariant forall j :: 0 <= j < i ==> hashes[j] == Reverse(mb.hashes[j])
    {
      hashes := hashes + [Reverse(mb.hashes[i])];
      i := i + 1;
    }
    assert hashes == FlipAll(mb.hashes);
    var tree := new PartialMerkle.MerkleTree(mb.total);
    var root := tree.PopulateTree(hash256, flagBits, hashes);
    if root.Err? {
      return Err(root.error);
    }
    return Ok(Reverse(root.value) == mb.header.merkleRoot);
  }

  /** A message from a peer for whose filter every transaction matched: all
      the hashes are sent and every node's flag bit is set. `isValid` then
      answers whether the header's Merkle root is the Merkle root that
      `merkleRoot` computes over the transactions. */
  lemma FullProofVerdict(hash256: Hasher, mb: MerkleBlock)
    requires mb.total as nat == |mb.hashes| && |mb.hashes| >= 1
    requires FullTree.FullFlags(Widths(mb.total as nat), UnpackBits(mb.flags))
    ensures Verdict(hash256, mb).Ok?
    ensures Verdict(hash256, mb).value <==>
      Merkle.Root(hash256, FlipAll(mb.hashes)) == Ok(Reverse(mb.header.merkleRoot))
  {
    var leaves := FlipAll(mb.hashes);
    FullTree.FullPopulate(hash256, leaves, UnpackBits(mb.flags));
    Merkle.RootNonEmpty(hash256, leaves);
    var root := Merkle.Root(hash256, leaves).value;
    ReverseReverse(root);
    ReverseReverse(mb.header.merkleRoot);
  }
}
