# Bitcoin light-client codec and proof checking, in Dafny

This project models the codec and proof-checking core of a Go Bitcoin
light-client toolkit (package `ecc`):

- **Codec helpers** (`ecc/helper.go`): fixed-width little-endian integers,
  CompactSize varints, LSB-first packing of bit fields into bytes, the
  compact "bits" encoding of a proof-of-work target, the clamped two-week
  retarget, and the full Merkle root with the odd-level duplication rule.
- **Partial Merkle tree** (`ecc/merkelblock.go`): the tree of BIP 37
  ("Partial Merkle branch format") as a class whose cursor
  `(currentDepth, currentIndex)` walks a pyramid of slots, and
  `populateTree`, the loop that fills the slots from flag bits and hashes.
  The loop is proved to compute exactly what the recursive traversal
  described in BIP 37 computes. When every transaction of a block matched
  and the proof lists them all, the root it rebuilds is proved to be the
  full Merkle root. The `merkleblock` message is modelled with its parser
  and its validity check.
- **Block header** (`ecc/block.go`): the 80-byte layout, the header hash,
  proof of work, and the BIP 9, BIP 91 and BIP 141 version-bit signals.
- **Bloom filter** (`ecc/bloomFilter.go`): a class that owns an array of
  bits. `add` only ever sets bits. `filterload` builds the message that sends
  the filter to a peer.
- **Network messages** (`ecc/network.go`): the envelope
  (magic, NUL-padded command, length, checksum, payload), and the ping,
  pong, verack, getheaders and headers payloads.

The hash functions are not modelled. Double SHA-256 (`hash256`) is a
parameter of type `Hasher`, a function from bytes to a 32-byte `Digest`.
`murmur3` is a parameter of type `Murmur`, whose results are below 2^32.
Every parser takes bytes and returns either the value and the unread rest,
or an error. Where the Go code panics, the model returns an error.

The Go code was transliterated from a Python original, and some lines do
not do what their names, comments and structure say. The model follows
the evident intent. Each divergence is listed under "## Left out". Seven of
them are also modelled as written, with a lemma that exhibits the defect
(see "## Findings").

Files: `common.dfy` (results, powers, byte reversal), `codec.dfy`,
`target.dfy`, `bitfield.dfy`, `merkle.dfy`, `partial_merkle.dfy`,
`full_tree.dfy` (full proofs against `merkleRoot`), `block.dfy`,
`merkle_block.dfy`, `bloom_filter.dfy` and `network.dfy`.

## Model

| member | source | states |
|---|---|---|
| Common.Reverse | ecc/block.go:34-36 | the reversal has the same length, and element i is element n-1-i of the input |
| Common.ReverseReverse | ecc/block.go:34-36 | reversing twice gives the input back |
| Codec.LittleEndianToInt | ecc/helper.go:97-102 | the value of b, read least significant byte first, is below 256^\|b\| |
| Codec.IntToLittleEndian | ecc/helper.go:104-111 | exactly `len` bytes, which read back as n mod 256^len (a value too wide is truncated) |
| Codec.LittleEndianRoundTrip | ecc/helper.go:97-111 | reading the `len` bytes of n back gives n whenever n < 256^len |
| Codec.LittleEndianBytesRoundTrip | ecc/helper.go:97-111 | re-encoding the value of any byte string at its own width gives the same bytes |
| Codec.ReadBytes | ecc/block.go:29-42 | a buffer read of n bytes succeeds iff at least n bytes remain, and splits the input into the n bytes and the rest |
| Codec.ReadLittleEndian | ecc/block.go:31-32 | a read of an n-byte integer succeeds iff n bytes remain; the input is the encoding of the value followed by the rest |
| Codec.ReadLittleEndianOf | ecc/block.go:31-32 | reading the encoding of a value that fits gives the value and leaves the rest untouched |
| Codec.ReadVarint | ecc/helper.go:113-137 | a varint consumes at least one byte, its value is below 2^64, and the rest is a suffix of the input |
| Codec.Varint | ecc/helper.go:139-154 | a varint takes from 1 to 9 bytes |
| Codec.EncodeVarint | ecc/helper.go:139-154 | succeeds iff n < 2^64; takes 1, 3, 5 or 9 bytes by the thresholds 0xfd, 2^16 and 2^32 |
| Codec.VarintRoundTrip | ecc/helper.go:113-154 | `readVarint` gives back every value `encodeVarint` encodes, and leaves the bytes after it |
| Codec.WideVarintRoundTrip | ecc/helper.go:120-131 | for the prefixes 0xfd, 0xfe and 0xff, the 2-, 4- or 8-byte payload is read back |
| Codec.VarintIsShortest | ecc/helper.go:113-154 | no varint read from a stream is shorter than the canonical encoding of its value |
| Codec.LittleEndianToIntAsWritten | ecc/helper.go:101 | the Go decoder as written: the first four bytes read most significant first |
| Codec.AsWrittenReadsBigEndian | ecc/helper.go:101 | the Go decoder reads [1, 0, 0, 0] as 2^24 where the little-endian value is 1 |
| Codec.EncodeVarintAsWritten | ecc/helper.go:139-154 | the Go encoder as written: fails exactly where `encodeVarint` panics; a value below 0xfd takes four bytes (00 00 00 n) and a wider one a two-byte prefix c3 bd, c3 be or c3 bf, one byte more than intended |
| Codec.AsWrittenSmallVarintMisread | ecc/helper.go:141-144 | a value below 0xfd, encoded as the Go code does, is read back as 0 and leaves three stray bytes |
| Codec.AsWrittenWideVarintMisread | ecc/helper.go:145-150 | every value of 0xfd or more, encoded as the Go code does, reads back as 195 with the rest of its encoding unread, while the intended encoding reads back as the value |
| Target.BitsToTarget | ecc/helper.go:177-181 | the target of the coefficient and exponent in `bits` is below 256^max(3, exponent), and below 256^(exponent) when the exponent is under 3 |
| Target.TargetToBits | ecc/helper.go:156-175 | succeeds iff 0 < target < 2^256; the coefficient is normalized (at least 0x8000, top byte at most 0x7f), which fixes the exponent; the bits encode the target with only the low bytes below that exponent cut off |
| Target.CompactTarget | ecc/helper.go:162-168 | leading byte above 0x7f: coefficient 0x00 and two bytes, exponent len+1; otherwise three bytes, exponent len; either way it decodes to the target rounded down |
| Target.CompactFields | ecc/helper.go:177-181 | the target of a coefficient c and exponent e is c·256^(e-3) (c divided by 256^(3-e) for e < 3) |
| Target.TargetToBitsRoundsDown | ecc/helper.go:156-181 | the target the bits encode is at most the input and within one unit of the last kept byte of it |
| Target.CanonicalRoundTrip | ecc/helper.go:156-181 | encoding the target of canonical bits gives the same bits back |
| Target.ClampedTimespan | ecc/helper.go:183-189 | the time differential clamped into [TWOWEEKS/4, TWOWEEKS·4], unchanged inside that range |
| Target.NewTarget | ecc/helper.go:183-190 | the new target is within a factor of four of the previous one |
| Target.CalculateNewBits | ecc/helper.go:183-192 | succeeds iff the new target is encodable; the new bits are normalized and encode the new target rounded down by less than one unit of their last kept byte; they encode at most four times the previous target and, up to that unit, more than a quarter of it |
| BitField.PackBits | ecc/helper.go:224-242 | the packing of a bit field of length 8k has k bytes |
| BitField.UnpackBits | ecc/helper.go:244-253 | 8 values per byte |
| BitField.PackBitsAt | ecc/helper.go:234-239 | byte k is the packing of bits 8k to 8k+7 |
| BitField.UnpackBitsAt | ecc/helper.go:244-253 | value i is bit i mod 8 of byte i/8, least significant first |
| BitField.BytesRoundTrip | ecc/helper.go:224-253 | packing the unpacked bits of any bytes gives the bytes back |
| BitField.BitsRoundTrip | ecc/helper.go:224-253 | unpacking the packing of any 0/1 field of length 8k gives the field back |
| BitField.BitFieldToBytes | ecc/helper.go:224-242 | fails iff the length is not a multiple of 8; otherwise the loop that ORs each set bit into its byte yields the packing |
| BitField.BytesToBitField | ecc/helper.go:244-253 | the nested shifting loops yield the unpacking |
| Merkle.ParentLevel | ecc/helper.go:199-213 | ceil(n/2) parents; parent k hashes hashes 2k and 2k+1, the last odd hash paired with itself |
| Merkle.MerkleParent | ecc/helper.go:194-197 | hash256 of the two children concatenated; `ParentLevel` and `RootIsTreeHash` state what it builds |
| Merkle.MerkleParentLevel | ecc/helper.go:199-213 | a one-hash level is an error; otherwise the loop over the padded level yields the parent level |
| Merkle.MerkleRoot | ecc/helper.go:215-222 | fails iff there are no hashes; one hash is its own root; otherwise the root of the repeated parent levels |
| Merkle.Root | ecc/helper.go:215-222 | parent levels taken until one hash is left; no hashes is an error (`RootNonEmpty`, and `MerkleRoot` computes it) |
| Merkle.RootNonEmpty | ecc/helper.go:215-222 | every non-empty list of hashes has a root |
| Merkle.DuplicateLastSameParents | ecc/helper.go:204-206 | repeating the last hash of an odd level does not change the parent level |
| Merkle.DuplicateLastSameRoot | ecc/helper.go:204-206 | so two different lists of hashes share a root |
| Merkle.RootIsTreeHash | ecc/helper.go:199-222 | for 2^h leaves, the bottom-up root equals the top-down hash of the two halves |
| PartialMerkle.CeilLog2 | ecc/merkelblock.go:23 | maxDepth is the least r with n <= 2^r |
| PartialMerkle.LevelWidths | ecc/merkelblock.go:24-34 | maxDepth+1 levels; level d has ceil(total / 2^(maxDepth-d)) slots |
| PartialMerkle.LevelWidthsPyramid | ecc/merkelblock.go:20-34 | the levels halve upwards (rounding up), the top level has one slot and the bottom has `total` |
| PartialMerkle.ComputeWidths | ecc/merkelblock.go:24-34 | the loop over depths yields the level widths |
| PartialMerkle.ChildInRange | ecc/merkelblock.go:68-76 | the left child of a slot is a slot of the level below |
| PartialMerkle.ParentInRange | ecc/merkelblock.go:63-66 | the parent of a slot is a slot of the level above |
| PartialMerkle.Step | ecc/merkelblock.go:107-149 | one iteration of the loop keeps the pyramid well formed and the cursor on a slot while the root is unknown |
| PartialMerkle.Steps | ecc/merkelblock.go:106-149 | any number of iterations keep that invariant |
| PartialMerkle.StepKeepsSlots | ecc/merkelblock.go:107-149 | one iteration fills only a slot of the pyramid, so the filled slots stay inside it |
| PartialMerkle.StepsKeepSlots | ecc/merkelblock.go:106-149 | any number of iterations keep the filled slots inside the pyramid |
| PartialMerkle.StepsAdd | ecc/merkelblock.go:106-149 | a+b iterations are a iterations followed by b |
| PartialMerkle.Extract | ecc/merkelblock.go:106-149 | the recursive traversal of BIP 37 consumes at least one flag bit, and never more hashes than given |
| PartialMerkle.Visit | ecc/merkelblock.go:106-149 | the loop, started on an unknown slot, reaches that slot's parent having stored there what `Extract` computes, or fails as `Extract` does |
| PartialMerkle.Populate | ecc/merkelblock.go:106-159 | succeeds iff the traversal succeeds, uses every hash and leaves only zero flag bits; the result is the traversal's root |
| PartialMerkle.Terminates | ecc/merkelblock.go:107 | the loop stops after a bounded number of iterations |
| PartialMerkle.FailsAt | ecc/merkelblock.go:107-159 | a loop that would pop from an exhausted list means the proof is malformed |
| PartialMerkle.Finishes | ecc/merkelblock.go:107-149 | a loop that fills the root ends in the state the traversal ends in |
| PartialMerkle.MerkleTree.constructor | ecc/merkelblock.go:20-38 | maxDepth = ceil(log2 total), the level widths, no slot filled, cursor at (0, 0) |
| PartialMerkle.MerkleTree.Up | ecc/merkelblock.go:63-66 | cursor moves to (d-1, i/2); the slots are unchanged |
| PartialMerkle.MerkleTree.Left | ecc/merkelblock.go:68-71 | cursor moves to (d+1, 2i), and `up` brings it back |
| PartialMerkle.MerkleTree.Right | ecc/merkelblock.go:73-76 | cursor moves to (d+1, 2i+1), and `up` brings it back |
| PartialMerkle.MerkleTree.Root | ecc/merkelblock.go:78-80 | the root slot, if filled |
| PartialMerkle.MerkleTree.GetRightNode | ecc/merkelblock.go:82-84 | slot (d+1, 2i+1), if filled |
| PartialMerkle.MerkleTree.GetLeftNode | ecc/merkelblock.go:86-88 | slot (d+1, 2i), if filled |
| PartialMerkle.MerkleTree.SetCurrentNode | ecc/merkelblock.go:90-92 | stores the hash in the slot under the cursor and changes nothing else |
| PartialMerkle.MerkleTree.GetCurrentNode | ecc/merkelblock.go:94-96 | the slot under the cursor, if filled |
| PartialMerkle.MerkleTree.Iterate | ecc/merkelblock.go:107-149 | one pass of the loop body, at a leaf or an internal node, leaves exactly the state of the next `Step` |
| PartialMerkle.MerkleTree.PopulateTree | ecc/merkelblock.go:106-159 | the loop returns exactly `Populate`, and on success the root slot holds the result |
| FullTree.FirstIs | ecc/merkelblock.go:25-26 | slot (d, j) of the tree `NewMerkleTree` lays out starts j·2^(maxDepth−d) leaves from the left |
| FullTree.FirstMonotone | ecc/merkelblock.go:25-26 | slots further right on a level start further right |
| FullTree.WidthFits | ecc/merkelblock.go:25-26 | with ceil(total / 2^(maxDepth−d)) slots at depth d, slot (d, j) exists iff its first leaf is one of the `total` leaves |
| FullTree.WidthBelowRoot | ecc/merkelblock.go:23-26 | with maxDepth = ceil(log2 total) ≥ 1, the level below the root has at least two slots |
| FullTree.LevelWidthsShape | ecc/merkelblock.go:20-34 | the allocated widths halve upwards, end in `total` leaves, and hold exactly the slots whose first leaf exists |
| FullTree.WideBelowRoot | ecc/merkelblock.go:20-34 | every level below the root of that tree has at least two slots |
| FullTree.Level | ecc/helper.go:199-213 | level d, built from the leaves by repeated `merkleParentLevel`, has as many hashes as the tree has slots at depth d |
| FullTree.Count | ecc/merkelblock.go:106-149 | a subtree's traversal with every flag 1 reads at least one flag bit |
| FullTree.Halves | ecc/merkelblock.go:102-104 | the leaves under a slot are those under its left child followed by those under its right child, when `rightExists` |
| FullTree.LevelParent | ecc/helper.go:199-213 | slot i of a level is `merkleParent` of slots 2i and 2i+1 below, or of 2i twice when 2i is the last |
| FullTree.NodeBoth | ecc/merkelblock.go:120-143 | a node with flag 1 whose two children are done is set to `merkleParent(left, right)` |
| FullTree.NodeLeft | ecc/merkelblock.go:120-147 | a node with flag 1 and no right child is set to `merkleParent(left, left)` |
| FullTree.FullExtract | ecc/merkelblock.go:106-149 | with every flag bit of a subtree set, its traversal yields the slot's hash in the bottom-up levels, reads exactly the subtree's flags and consumes exactly its leaves |
| FullTree.FullBoth | ecc/merkelblock.go:120-143 | that statement at a slot with two children |
| FullTree.FullLeft | ecc/merkelblock.go:120-147 | that statement at a slot with a left child only |
| FullTree.RootOfLevel | ecc/helper.go:215-222 | `merkleRoot` of any level of the tree is `merkleRoot` of the leaves |
| FullTree.FullRoot | ecc/helper.go:215-222 | `merkleRoot` of the leaves is the top of the bottom-up levels |
| FullTree.ShapePopulate | ecc/merkelblock.go:106-159 | over widths of that shape, a full proof populates to `merkleRoot` of the leaves |
| FullTree.FullPopulate | ecc/merkelblock.go:106-159 | with every leaf sent and every node's flag 1, `populateTree` over the widths `NewMerkleTree` allocates gives `merkleRoot` of all the leaves |
| Block.ParseHeader | ecc/block.go:28-44 | succeeds iff 80 bytes remain, and consumes exactly 80 |
| Block.Serialize | ecc/block.go:46-54 | 80 bytes |
| Block.ParseFields | ecc/block.go:28-44 | the fields are read at widths 4/32/32/4/4/4, and both hashes are reversed |
| Block.ParseSerialize | ecc/block.go:28-54 | parsing a serialized header gives it back, and the rest |
| Block.SerializeParse | ecc/block.go:28-54 | serializing a parsed header gives back the 80 bytes it was read from |
| Block.SerializeAsWritten | ecc/block.go:46-54 | the serialization as written is also 80 bytes |
| Block.AsWrittenReversesHashes | ecc/block.go:48-49 | parsing the as-written serialization gives the header with both hashes reversed |
| Block.AsWrittenRoundTripFails | ecc/block.go:48-49 | a header for which the as-written round trip fails |
| Block.HashOfParsed | ecc/block.go:56-60 | the hash of a parsed header is hash256 of the 80 bytes it came from |
| Block.Hash | ecc/block.go:56-60 | hash256 of the 80-byte serialization (`HashOfParsed`: of the bytes a header was parsed from) |
| Block.Bip9 | ecc/block.go:62-64 | the version's top three bits are 001 (`Bip9Byte` reads it off the wire) |
| Block.Bip91 | ecc/block.go:66-68 | bit 4 of the version is set (`LowSignalBytes`) |
| Block.Bip141 | ecc/block.go:70-72 | bit 1 of the version is set (`LowSignalBytes`) |
| Block.HeaderTarget | ecc/block.go:85-87 | the target the header's compact bits encode (see `BitsToTarget`) |
| Block.CheckPow | ecc/block.go:74-78 | the hash read little endian is below the header's target (`CheckPowOfBytes`) |
| Block.Bip9Byte | ecc/block.go:62-64 | `version >> 29 == 1` iff the last version byte on the wire has top bits 001 |
| Block.LowSignalBytes | ecc/block.go:66-72 | bit 4 (BIP 91) and bit 1 (BIP 141) of the version are those bits of its first wire byte |
| Block.CheckPowOfBytes | ecc/block.go:74-87 | proof of work holds iff hash256 of the 80 bytes, read little endian, is below the target of bytes 72..76 |
| MerkleBlockMessage.ReadHashes | ecc/merkelblock.go:217-221 | succeeds iff 32·count bytes remain; exactly count hashes |
| MerkleBlockMessage.ReadHashesAt | ecc/merkelblock.go:217-221 | hash j is the reverse of bytes 32j..32j+32 |
| MerkleBlockMessage.WireHashes | ecc/merkelblock.go:217-221 | 32 bytes per hash |
| MerkleBlockMessage.ReadWireHashes | ecc/merkelblock.go:217-221 | hashes written in wire order read back |
| MerkleBlockMessage.ReadHashList | ecc/merkelblock.go:217-222 | the loop that reads a varint count of hashes computes the hash list |
| MerkleBlockMessage.ParseMerkleBlock | ecc/merkelblock.go:202-226 | a parsed message has counts that fit varints and consumed at least the 84-byte header and total; `ParseSerialize` reads every serialized message back |
| MerkleBlockMessage.Serialize | ecc/merkelblock.go:202-226 | the layout `parse` reads: header, total, counted hashes in wire order, counted flag bytes; its inverse is `ParseSerialize` |
| MerkleBlockMessage.Parse | ecc/merkelblock.go:202-226 | the sequential reads compute the message parser |
| MerkleBlockMessage.HashListRoundTrip | ecc/merkelblock.go:217-222 | a counted hash list reads back |
| MerkleBlockMessage.FlagsRoundTrip | ecc/merkelblock.go:223-224 | a counted flag-byte string reads back |
| MerkleBlockMessage.ParseSerialize | ecc/merkelblock.go:202-226 | the layout `parse` reads is read back whole, leaving the rest |
| MerkleBlockMessage.FlipAll | ecc/merkelblock.go:230-235 | each hash reversed, the order kept |
| MerkleBlockMessage.FlipAllTwice | ecc/merkelblock.go:230-235 | reversing each hash twice gives the hashes back |
| MerkleBlockMessage.IsValid | ecc/merkelblock.go:228-239 | the check unpacks the flags, reverses the hashes, fills a fresh tree and compares the reversed root with the header's root |
| MerkleBlockMessage.Verdict | ecc/merkelblock.go:228-239 | total 0 or a malformed proof is an error; otherwise whether the rebuilt root, reversed, is the header's Merkle root (`IsValid` computes it, `FullProofVerdict` ties it to the Merkle root) |
| MerkleBlockMessage.FullProofVerdict | ecc/merkelblock.go:228-239 | for a message listing every transaction with every flag bit set, `isValid` succeeds and answers whether the header's Merkle root is `merkleRoot` of the transaction hashes |
| Bloom.Probe | ecc/bloomFilter.go:28-29 | the bit hash function i picks is inside the field |
| Bloom.Probes | ecc/bloomFilter.go:27-31 | every bit picked for an item is inside the field |
| Bloom.SetBits | ecc/bloomFilter.go:26-33 | setting bits keeps the length of the field |
| Bloom.AddedIsContained | ecc/bloomFilter.go:26-33 | after an item is added, the filter may contain it (no false negatives) |
| Bloom.SetBitsKeepsContained | ecc/bloomFilter.go:26-33 | adding further items never loses an item added before |
| Bloom.SetBitsOnlyGains | ecc/bloomFilter.go:26-33 | no set bit is cleared, bits not picked are unchanged, and 0/1 values stay 0/1 |
| Bloom.SetBitsIdempotent | ecc/bloomFilter.go:26-33 | adding the same item twice leaves the field it left once |
| Bloom.SetNoBits | ecc/bloomFilter.go:27 | with no hash functions nothing changes |
| Bloom.SetBitsTwice | ecc/bloomFilter.go:26-33 | two adds set the union of their bits |
| Bloom.SetOneBit | ecc/bloomFilter.go:30 | the loop's single write adds one position to the set bits |
| Bloom.FilterLoadPayload | ecc/bloomFilter.go:35-41 | the payload exists iff the size fits a varint |
| Bloom.TrailerDecodes | ecc/bloomFilter.go:38-40 | the function count, tweak and flag read back, each cut to its width |
| Bloom.PayloadFrame | ecc/bloomFilter.go:36-37 | the size and the packed field read back |
| Bloom.FilterLoadDecodes | ecc/bloomFilter.go:35-42 | a peer reading the payload recovers the size, every bit of the field, and the count, tweak and flag cut to their widths |
| Bloom.BloomFilter.constructor | ecc/bloomFilter.go:12-24 | size·8 clear bits; the count and tweak stored |
| Bloom.BloomFilter.Add | ecc/bloomFilter.go:26-33 | sets exactly the bits the hash functions pick and nothing else; with no hash functions or an empty field nothing changes (the latter is an error when there are hash functions) |
| Bloom.BloomFilter.FilterBytes | ecc/bloomFilter.go:44-46 | `size` bytes whose unpacking is the field |
| Bloom.BloomFilter.FilterLoad | ecc/bloomFilter.go:35-42 | the message has command `filterload` and the varint size, field bytes, LE4 count, LE4 tweak and LE1 flag as payload |
| Network.Magic | ecc/network.go:14-17 | four bytes per network |
| Network.TrimLeft | ecc/network.go:65 | removes exactly the leading NULs |
| Network.TrimRight | ecc/network.go:65 | removes exactly the trailing NULs |
| Network.TrimNul | ecc/network.go:65 | the result has no NUL at either end and is no longer than the input (`TrimPadded` inverts the padding) |
| Network.TrimPadded | ecc/network.go:65-89 | a command with no NUL at either end, padded with NULs, trims back to itself |
| Network.Checksum | ecc/network.go:70-71 | four bytes |
| Network.ReadFrame | ecc/network.go:64-69 | the frame read is a 12-byte command, a length that is the payload's, a 4-byte checksum and the payload, followed by the rest |
| Network.ReadFrameOf | ecc/network.go:64-69 | a frame's fields are read back from its bytes |
| Network.ParseEnvelope | ecc/network.go:48-75 | no bytes is a reset connection; a wrong or short magic is a mismatch; on success the magic and frame are as read and the checksum is that of the payload |
| Network.EnvelopeBytes | ecc/network.go:77-89 | starts with the magic and ends with the payload; a command of at most 12 bytes gives a 24-byte header (`ParseSerialize` reads it back) |
| Network.Padded | ecc/network.go:78-83 | the command, then NULs up to 12 bytes; a longer command is kept whole |
| Network.Serialize | ecc/network.go:77-89 | the padding loop and appends yield the envelope bytes |
| Network.ParseSerialize | ecc/network.go:48-89 | for a command of at most 12 bytes with no NUL at either end, parsing the serialization gives the envelope back |
| Network.EnvelopeStages | ecc/network.go:56-74 | a right magic, a frame read and a matching checksum give the envelope |
| Network.OtherNetworkRejected | ecc/network.go:56-63 | an envelope of one network is rejected by a parser for the other |
| Network.BadChecksumRejected | ecc/network.go:70-73 | a frame whose checksum does not match its payload is rejected |
| Network.EnvelopeBytesAsWritten | ecc/network.go:78-79 | the Go frame as written: the padded command, length, checksum and payload, with no magic |
| Network.AsWrittenRejected | ecc/network.go:78-79 | the as-written serialization, which lacks the magic, is rejected by the parser whenever the command is empty or does not start with the first magic byte |
| Network.ParseNonceMessage | ecc/network.go:230-235 | ping and pong parsing succeeds iff 8 bytes remain |
| Network.SerializeNonceMessage | ecc/network.go:237-239 | the nonce itself (`NonceRoundTrip` and `NonceBytesRoundTrip` are its inverse laws) |
| Network.NonceRoundTrip | ecc/network.go:230-239 | an 8-byte nonce reads back |
| Network.NonceBytesRoundTrip | ecc/network.go:230-239 | serializing a parsed nonce gives back the 8 bytes read |
| Network.ParseVerAck | ecc/network.go:211-214 | verack parsing reads nothing |
| Network.SerializeVerAck | ecc/network.go:216-218 | verack serializes to no bytes |
| Network.NewGetHeaders | ecc/network.go:269-288 | a start block is required; the end block defaults to 32 zero bytes; the other fields are stored |
| Network.SerializeGetHeaders | ecc/network.go:290-296 | succeeds iff the count fits a varint |
| Network.GetHeadersRoundTrip | ecc/network.go:290-296 | the version (cut to 32 bits), count, start and end blocks read back |
| Network.SerializeGetHeadersAsWritten | ecc/network.go:293-294 | the Go request as written: version, varint count, then each hash with its last byte dropped and not reversed |
| Network.AsWrittenTooShort | ecc/network.go:293-294 | the as-written serialization is two bytes short, and cannot be read back |
| Network.ReadHeaderEntry | ecc/network.go:357-362 | a header entry consumes bytes |
| Network.ReadHeaders | ecc/network.go:356-362 | exactly `count` headers |
| Network.PrependEntry | ecc/network.go:356-362 | the loop's step: one more entry read ahead of the rest |
| Network.ParseHeadersMessage | ecc/network.go:353-365 | on success exactly as many headers as the leading varint announces (`HeadersRoundTrip` reads back every serialized message) |
| Network.ParseHeaders | ecc/network.go:353-365 | the loop computes the headers-message parser |
| Network.ReadHeaderEntries | ecc/network.go:356-362 | serialized header entries read back |
| Network.EntryRoundTrip | ecc/network.go:357-362 | one header followed by a zero transaction count reads back |
| Network.HeadersRoundTrip | ecc/network.go:353-365 | a serialized headers message reads back, leaving the rest |
| Network.TransactionsRejected | ecc/network.go:359-361 | a header followed by a non-zero transaction count is an error |
| Network.ReadHeadersAsWritten | ecc/network.go:356-362 | the as-written loop, which reads every header and count from the start of the message; on success `count` headers |
| Network.ParseHeadersMessageAsWritten | ecc/network.go:353-365 | the as-written parser over that loop |
| Network.AsWrittenCountRejected | ecc/network.go:354-361 | as written, any message whose count is 1 or more is an error |
| Network.AsWrittenHeadersRejected | ecc/network.go:354-361 | as written, every serialized headers message with at least one header is refused |
| Network.AsWrittenEmptyAgrees | ecc/network.go:353-365 | on a message with count 0 the as-written and the intended parser both give no headers |

## Left out

Divergences from the Go code, where the model follows the evident intent:

- `littleEndianToInt` (ecc/helper.go:101) decodes 4 bytes big endian. The model decodes any number of bytes, little endian (a finding).
- `encodeVarint` (ecc/helper.go:141-144) writes a value below 0xfd as 4 big-endian bytes. The model writes the single byte (a finding).
- `encodeVarint` (ecc/helper.go:146, 148, 150) writes its prefixes as the string literals "\u00fd", "\u00fe" and "\u00ff", which Go stores as the two UTF-8 bytes c3 bd, c3 be and c3 bf. So every value of 0xfd or more gets a two-byte prefix, and `readVarint` reads it back as 195. The `filterload` payload (ecc/bloomFilter.go:36) and the getheaders request (ecc/network.go:292) inherit this. The model writes the single prefix byte fd, fe or ff (a finding).
- `intToLittleEndian` (ecc/helper.go:108-109) writes 8 bytes into a buffer of `length` bytes, which panics for a length below 8. The model keeps the low `length` bytes.
- `readVarint` reads its payload with `bytes.Buffer.ReadBytes(n)`, which reads up to the delimiter byte n rather than n bytes. The same holds for every `ReadBytes` call in block.go, merkelblock.go and network.go. The model reads exactly n bytes, and a short input is an error.
- `targetToBits` (ecc/helper.go:156-175) puts the target into 8 bytes of a 32-byte buffer and writes a 32-byte exponent. It also appends the coefficient in big-endian order (`rawBytes[:2]` and `rawBytes[:3]` at ecc/helper.go:165, 168, appended as is at line 173), where the Python original reverses it to little endian. The model implements the compact encoding of the Python original. A target shorter than three bytes gets a zero-padded coefficient, as in Bitcoin Core, so the bits are always four bytes.
- `bitsToTarget` (ecc/helper.go:177-181) uses `float64` powers and `byte` exponent arithmetic that wraps below 3. The model computes c·256^(e-3) exactly, and divides by 256^(3-e) when e < 3.
- `calculateNewBits` (ecc/helper.go:183-192) uses `math.Floor` on `float64`. The model uses integer division.
- `bitFieldToBytes` (ecc/helper.go:231-241) builds a `float64` slice of the wrong length. The model produces `len/8` bytes with bit i in byte i/8 at position i%8.
- `NewMerkleTree` (ecc/merkelblock.go:23) takes the natural logarithm, although its comment says the base-two logarithm was removed. The model uses ceil(log2 total).
- The `MerkleTree` levels hold `byte`, not hashes, and "unknown" is tested with `&h == nil`, which is never true. The model keeps a map from (depth, index) to hash, in which a missing slot is unknown.
- `setCurrentNode` (ecc/merkelblock.go:90-92) compares instead of storing. The model stores.
- `MerkleBlock.parse` (ecc/merkelblock.go:217, 223) reads both varints from the start of the input, not from the buffer. The flag length is cut to a `byte` (ecc/merkelblock.go:224). The model reads both varints in sequence from the buffer, at full width.
- Network.ParseHeaders: `HeadersMessage.parse` (ecc/network.go:354, 358-359) hands the whole message to `Block.parse` and `readVarint` on every iteration, and each of them starts a fresh buffer at byte 0. So each header is read from the start of the message, and the transaction count read back is the header count, which panics for any message with one header or more. The model reads the count, then each header and its count in sequence (a finding).
- The envelope magic (ecc/network.go:15-16) is given as ASCII hex text. The model uses the four bytes f9 be b4 d9 and 0b 11 09 07.
- `hash256` (ecc/helper.go:28-33) returns the 64-character hex text of the digest, not its 32 bytes. So the envelope checksum `hash256(...)[:4]` (ecc/network.go:70-71, 86) is four hex characters, `merkleParent` (ecc/helper.go:194-197) hashes the hex text of the children above the leaves, and `hash` and `checkPow` (ecc/block.go:56-60, 74-78) work on hex characters. The model's `Hasher` returns the 32 digest bytes everywhere.
- `NetworkEnvelope.serialize` (ecc/network.go:78-79) drops the magic (a finding).
- `NetworkEnvelope.parse` (ecc/network.go:69) cuts the payload length to a `byte`. The model reads the full 32-bit length.
- `NetworkEnvelope.parse` (ecc/network.go:53-55) tests for a reset connection with `reflect.DeepEqual(magic, []byte(""))`. On empty input `ReadBytes` returns a nil slice, which is never deeply equal to the non-nil empty slice, so the test never fires, and the empty input panics at the magic comparison (ecc/network.go:61-63) instead. The model reports empty input as `ConnectionReset`, as the test intends.
- `Block.serialize` (ecc/block.go:48-49) does not re-reverse the hashes that `parse` reversed (a finding).
- `GetHeadersMessage.serialize` (ecc/network.go:293-294) drops the last byte of each hash, where the Python original reverses them (a finding). The model writes both blocks reversed.
- In `NewGetHeadersMessage` (ecc/network.go:273, 277), `&startBlock == nil` is never true. The model treats an absent start block as an error and an absent end block as 32 zero bytes, as the messages say.

Parts of the system not modelled:

- `VersionMessage` (ecc/network.go:97-200): it reads the clock and `math/rand`, and is not one of the messages whose layout is proved.
- `SimpleNode`, `handshake`, `send`, `read` and `waitFor` (ecc/network.go:367 onward): socket I/O.
- `Repr` methods: string formatting only.
- `difficulty` and `MAXTARGET` (ecc/block.go:80-83, ecc/helper.go:22): floating-point ratios.
- `GetDataMessage` (ecc/network.go:298-326): its serializer is commented out. `GenericMessage.serialize` is a passthrough; `filterload`'s message is modelled as a command and a payload.
- Base58 encoding and decoding (ecc/helper.go:50-95): outside the proof-checking core.
- SHA-256, `hash256`, `hash160` and `murmur3` internals (ecc/helper.go:24-33, 255-307): parameters of the model. `murmur3` is known only to return a value below 2^32.
- `ByteArrayToInt` (ecc/helper.go:41-48): unsafe pointer writes that depend on the host's byte order.
- `validateMerkleRoot` (ecc/block.go:89 onward): commented out.
- Panics: each is an error result. Integer overflow of Go's `int` is not modelled, because integers here are unbounded.

Contracts and choices to note:

- PartialMerkle.MerkleTree.PopulateTree: requires a fresh tree, with no slot filled and the cursor at the root, which is how `isValid` uses it. A tree already holding a root would return at once in the source.
- PartialMerkle.MerkleTree.Iterate: a pop from an exhausted flag or hash list, which panics in the source, is reported as a failed step, and `PopulateTree` then fails with `ProofMalformed`.
- MerkleBlockMessage.IsValid: returns `Result<bool>`. A message announcing no transactions (total 0), and any proof `populateTree` rejects, is an error rather than a panic. Leftover flag bits must be 0, and leftover hashes are an error.
- MerkleBlockMessage.IsValid: its contract ties the check to `Populate` over the level widths. Only full proofs, which list every leaf with every flag bit 1, are connected to `Merkle.Root` (`FullProofVerdict`); for pruned proofs the model does not prove that the root equals the Merkle root of the whole block.
- `isLeaf` and `rightExists` are the predicates `MerkleTree.IsLeaf` and `MerkleTree.RightExists`. They are used by `Iterate` and have no contract of their own.
- Block.ParseHeader, MerkleBlockMessage.Parse and Network.ParseEnvelope: parsers over byte sequences that return the unread rest, in place of the Go `bytes.Buffer` cursor.
- Bloom.BloomFilter.Add: an empty filter with at least one hash function has no bit to pick (the Go code divides by zero). The model returns `ZeroSize` and leaves the field unchanged.

## Findings

| source | as written | input that shows it | evidently intended | confidence | as-written member | corrected member |
|---|---|---|---|---|---|---|
| ecc/block.go:48-49 | `serialize` appends `prevBlock` and `merkleRoot` as stored, but `parse` reversed them | any header whose previous-block hash is not a palindrome, e.g. one starting with byte 1 and ending with 0 | write both hashes reversed back into wire order, so that `parse(serialize(b)) == b` | not executed | Block.AsWrittenReversesHashes, Block.AsWrittenRoundTripFails | Block.Serialize, Block.ParseSerialize |
| ecc/network.go:78-79 | `result := Ne.magic` is overwritten by `append(Ne.command, …)`, so the frame has no magic | any envelope | the frame starts with the four magic bytes | not executed | Network.EnvelopeBytesAsWritten, Network.AsWrittenRejected | Network.EnvelopeBytes, Network.ParseSerialize |
| ecc/network.go:293-294 | `startBlock[:len-1]` and `endBlock[:len-1]` drop the last byte of each hash | any getheaders message | each 32-byte hash written in full, reversed | not executed | Network.SerializeGetHeadersAsWritten, Network.AsWrittenTooShort | Network.SerializeGetHeaders, Network.GetHeadersRoundTrip |
| ecc/helper.go:141-144 | a value below 0xfd is encoded as 4 big-endian bytes | n = 5 is encoded as 00 00 00 05, which `readVarint` reads as 0 | a single byte holding the value | not executed | Codec.EncodeVarintAsWritten, Codec.AsWrittenSmallVarintMisread | Codec.EncodeVarint, Codec.VarintRoundTrip |
| ecc/network.go:354-361 | every `B.parse(stream)` and `readVarint(stream)` starts again at byte 0 of the message, so the transaction count read is the header count | any headers message announcing one header or more, e.g. one header: its count 1 is read back as the transaction count and rejected | read the count, then each header and its zero transaction count in sequence | not executed | Network.ParseHeadersMessageAsWritten, Network.AsWrittenHeadersRejected | Network.ParseHeadersMessage, Network.HeadersRoundTrip |
| ecc/helper.go:145-150 | the prefixes `[]byte("\u00fd")`, `"\u00fe"` and `"\u00ff"` are UTF-8, two bytes each (c3 bd, c3 be, c3 bf) | n = 2^32 is written as c3 bf 00 00 00 00 01 00 00 00, which `readVarint` reads as 195 | the single prefix byte fd, fe or ff | not executed | Codec.EncodeVarintAsWritten, Codec.AsWrittenWideVarintMisread | Codec.EncodeVarint, Codec.VarintRoundTrip |
| ecc/helper.go:101 | `littleEndianToInt` decodes with `binary.BigEndian.Uint32` | [1, 0, 0, 0] is read as 16777216 | least significant byte first, at any width | not executed | Codec.LittleEndianToIntAsWritten, Codec.AsWrittenReadsBigEndian | Codec.LittleEndianToInt, Codec.LittleEndianRoundTrip |
