/** The peer-to-peer message envelope and the small messages a light client
    exchanges (ecc/network.go): ping, pong, verack, getheaders and headers. */
module Network {
  import opened Common
  import opened Codec
  import Block

  /** The magic bytes that open every frame of the main network. */
  const MAINNET_MAGIC: seq<uint8> := [0xf9, 0xbe, 0xb4, 0xd9]

  /** The magic bytes of the test network. */
  const TESTNET_MAGIC: seq<uint8> := [0x0b, 0x11, 0x09, 0x07]

  function Magic(testnet: bool): (r: seq<uint8>)
    ensures |r| == 4 && r[0] != 0
  {
    if testnet then TESTNET_MAGIC else MAINNET_MAGIC
  }

  /** The width of the command field of a frame. */
  const COMMAND_SIZE: nat := 12

  /** A frame: the command name, the payload and the network it travels on. */
  datatype Envelope = Envelope(command: seq<uint8>, payload: seq<uint8>, testnet: bool)

  /** n NUL bytes. */
  function Zeros(n: nat): (r: seq<uint8>)
    ensures |r| == n && forall i :: 0 <= i < n ==> r[i] == 0
  {
    seq(n, _ => 0)
  }

  /** Leading NULs removed. */
  function TrimLeft(s: seq<uint8>): (r: seq<uint8>)
    ensures |r| <= |s| && r == s[|s| - |r|..]
    ensures r == [] || r[0] != 0
    ensures forall i :: 0 <= i < |s| - |r| ==> s[i] == 0
  {
    if s != [] && s[0] == 0 then TrimLeft(s[1..]) else s
  }

  /** Trailing NULs removed. */
  function TrimRight(s: seq<uint8>): (r: seq<uint8>)
    ensures |r| <= |s| && r == s[..|r|]
    ensures r == [] || r[|r| - 1] != 0
    ensures forall i :: |r| <= i < |s| ==> s[i] == 0
  {
    if s != [] && s[|s| - 1] == 0 then TrimRight(s[..|s| - 1]) else s
  }

  /** NULs removed from both ends, as the command field is read. */
  function TrimNul(s: seq<uint8>): (r: seq<uint8>)
    ensures Trimmed(r)
    ensures |r| <= |s|
  {
    TrimRight(TrimLeft(s))
  }

  /** Neither end of the name is a NUL: the names trimming gives back. */
  predicate Trimmed(s: seq<uint8>)
  {
    s == [] || (s[0] != 0 && s[|s| - 1] != 0)
  }

  /** Trimming a NUL-padded trimmed name gives the name. */
  lemma {:induction false} TrimPadded(name: seq<uint8>, n: nat)
    requires Trimmed(name)
    ensures TrimNul(name + Zeros(n)) == name
  {
    var s := name + Zeros(n);
    if name == [] {
      TrimAllZeros(s);
    } else {
      assert TrimLeft(s) == s;
      TrimRightPadded(name, n);
    }
  }

  lemma {:induction false} TrimAllZeros(s: seq<uint8>)
    requires forall i :: 0 <= i < |s| ==> s[i] == 0
    ensures TrimLeft(s) == [] && TrimRight([]) == []
  {
    if s != [] {
      TrimAllZeros(s[1..]);
    }
  }

  lemma {:induction false} TrimRightPadded(name: seq<uint8>, n: nat)
    requires name != [] && name[|name| - 1] != 0
    ensures TrimRight(name + Zeros(n)) == name
  {
    if n > 0 {
      assert (name + Zeros(n))[..|name| + n - 1] == name + Zeros(n - 1);
      TrimRightPadded(name, n - 1);
    } else {
      assert name + Zeros(0) == name;
    }
  }

  /** The first four bytes of the double SHA-256 of the payload. */
  function Checksum(hash256: Hasher, payload: seq<uint8>): (r: seq<uint8>)
    ensures |r| == 4
  {
    hash256(payload)[..4]
  }

  /** The fields of a frame after its magic bytes: the command field as
      read (12 bytes, padding included), the checksum and the payload. */
  datatype Frame = Frame(command: seq<uint8>, checksum: seq<uint8>, payload: seq<uint8>)

  /** The 12-byte command, the payload length (4 bytes little endian), the
      checksum and that many payload bytes. */
  function ReadFrame(t: seq<uint8>): (r: Result<(Frame, seq<uint8>)>)
    ensures r.Ok? ==> var f := r.value.0;
      |f.command| == COMMAND_SIZE && |f.checksum| == 4 && |f.payload| < 0x1_0000_0000 &&
      t == f.command + IntToLittleEndian(|f.payload|, 4) + f.checksum + f.payload + r.value.1
  {
    var command :- ReadBytes(t, COMMAND_SIZE);
    var length :- ReadLittleEndian(command.1, 4);
    var checksum :- ReadBytes(length.1, 4);
    var payload :- ReadBytes(checksum.1, length.0);
    assert length.0 < 0x1_0000_0000 by { PowValues(); }
    assert t == command.0 + IntToLittleEndian(length.0, 4) + checksum.0 + payload.0 + payload.1 by {
      assert t == command.0 + (IntToLittleEndian(length.0, 4) + (checksum.0 + (payload.0 + payload.1)));
    }
    Ok((Frame(command.0, checksum.0, payload.0), payload.1))
  }

  /** The fields of a frame are read back from their bytes. */
  lemma ReadFrameOf(f: Frame, rest: seq<uint8>)
    requires |f.command| == COMMAND_SIZE && |f.checksum| == 4 && |f.payload| < 0x1_0000_0000
    ensures ReadFrame(f.command + IntToLittleEndian(|f.payload|, 4) + f.checksum + f.payload + rest) == Ok((f, rest))
  {
    var n := |f.payload|;
    var tail := f.checksum + (f.payload + rest);
    var t := f.command + IntToLittleEndian(n, 4) + f.checksum + f.payload + rest;
    assert ReadBytes(t, COMMAND_SIZE) == Ok((f.command, IntToLittleEndian(n, 4) + tail)) by {
      assert t == f.command + (IntToLittleEndian(n, 4) + tail);
    }
    assert ReadLittleEndian(IntToLittleEndian(n, 4) + tail, 4) == Ok((n, tail)) by {
      PowValues();
      ReadLittleEndianOf(n, 4, tail);
    }
    assert ReadBytes(tail, 4) == Ok((f.checksum, f.payload + rest));
    assert ReadBytes(f.payload + rest, n) == Ok((f.payload, rest));
  }

  /** `NetworkEnvelope.parse`: no bytes at all is a reset connection; magic
      bytes of another network, a frame cut short and a checksum that does
      not match the payload are errors. The command is read as 12 bytes with
      its NUL padding trimmed. */
  function ParseEnvelope(hash256: Hasher, s: seq<uint8>, testnet: bool): (r: Result<(Envelope, seq<uint8>)>)
    ensures |s| == 0 ==> r == Err(ConnectionReset)
    ensures |s| > 0 && (|s| < 4 || s[..4] != Magic(testnet)) ==> r == Err(ProtocolMismatch)
    ensures r.Ok? ==> |s| >= 4 && ReadFrame(s[4..]).Ok? && var (e, rest) := r.value;
      var command := ReadFrame(s[4..]).value.0.command;
      e.testnet == testnet && |command| == COMMAND_SIZE && e.command == TrimNul(command) &&
      s[..4] == Magic(testnet) &&
      s[4..] == command + IntToLittleEndian(|e.payload|, 4) + Checksum(hash256, e.payload) + e.payload + rest
  {
    if |s| == 0 then Err(ConnectionReset)
    else if |s| < 4 || s[..4] != Magic(testnet) then Err(ProtocolMismatch)
    else
      var frame :- ReadFrame(s[4..]);
      var f := frame.0;
      if Checksum(hash256, f.payload) != f.checksum then Err(ChecksumError)
      else Ok((Envelope(TrimNul(f.command), f.payload, testnet), frame.1))
  }

  /** `NetworkEnvelope.serialize`: the magic, the command padded with NULs
      to 12 bytes, the payload length (4 bytes little endian), the checksum
      and the payload. */
  function EnvelopeBytes(hash256: Hasher, e: Envelope): (r: seq<uint8>)
    ensures |r| >= 24 + |e.payload| && r[..4] == Magic(e.testnet)
    ensures |e.command| <= COMMAND_SIZE ==> |r| == 24 + |e.payload|
    ensures r[|r| - |e.payload|..] == e.payload
  {
    Magic(e.testnet) + Padded(e.command) + IntToLittleEndian(|e.payload|, 4) +
    Checksum(hash256, e.payload) + e.payload
  }

  /** The command with NULs up to the width of the field; a longer command
      is left as it is. */
  function Padded(command: seq<uint8>): (r: seq<uint8>)
    ensures |r| == if |command| < COMMAND_SIZE then COMMAND_SIZE else |command|
    ensures r[..|command|] == command
    ensures forall i :: |command| <= i < |r| ==> r[i] == 0
  {
    command + Zeros(if |command| < COMMAND_SIZE then COMMAND_SIZE - |command| else 0)
  }

  /** `NetworkEnvelope.serialize`, padding the command in a loop. */
  method Serialize(hash256: Hasher, e: Envelope) returns (r: seq<uint8>)
    ensures r == EnvelopeBytes(hash256, e)
  {
    var command := e.command;
    var i := 0;
    while i < COMMAND_SIZE - |e.command|
      invariant 0 <= i && (|e.command| < COMMAND_SIZE ==> i <= COMMAND_SIZE - |e.command|)
      invariant |e.command| >= COMMAND_SIZE ==> i == 0
      invariant command == e.command + Zeros(i)
    {
      command := command + [0];
      i := i + 1;
    }
    assert command == Padded(e.command);
    r := Magic(e.testnet) + command;
    r := r + IntToLittleEndian(|e.payload|, 4);
    r := r + Checksum(hash256, e.payload);
    r := r + e.payload;
  }

  /** A frame survives the round trip when its command fits the field and
      has no NUL at either end, and its length fits four bytes. */
  predicate Framable(e: Envelope)
  {
    |e.command| <= COMMAND_SIZE && Trimmed(e.command) && |e.payload| < 0x1_0000_0000
  }

  /** Parsing a serialized frame on its own network gives it back, with the
      bytes after it. */
  lemma ParseSerialize(hash256: Hasher, e: Envelope, rest: seq<uint8>)
    requires Framable(e)
    ensures ParseEnvelope(hash256, EnvelopeBytes(hash256, e) + rest, e.testnet) == Ok((e, rest))
  {
    var f := Frame(Padded(e.command), Checksum(hash256, e.payload), e.payload);
    var t := f.command + IntToLittleEndian(|e.payload|, 4) + f.checksum + f.payload + rest;
    var s := EnvelopeBytes(hash256, e) + rest;
    assert s[..4] == Magic(e.testnet) && s[4..] == t by {
      assert s == Magic(e.testnet) + t;
    }
    assert ReadFrame(s[4..]) == Ok((f, rest)) by {
      ReadFrameOf(f, rest);
    }
    PaddedTrims(e.command);
    EnvelopeStages(hash256, s, e.testnet, f, rest);
  }

  /** A command that fits the field comes back from its padded form. */
  lemma PaddedTrims(command: seq<uint8>)
    requires |command| <= COMMAND_SIZE && Trimmed(command)
    ensures TrimNul(Padded(command)) == command
  {
    TrimPadded(command, COMMAND_SIZE - |command|);
  }

  /** Bytes that start with the magic and then hold a frame whose checksum
      matches are read as that frame's envelope. */
  lemma EnvelopeStages(hash256: Hasher, s: seq<uint8>, testnet: bool, f: Frame, rest: seq<uint8>)
    requires |s| >= 4 && s[..4] == Magic(testnet)
    requires ReadFrame(s[4..]) == Ok((f, rest)) && f.checksum == Checksum(hash256, f.payload)
    ensures ParseEnvelope(hash256, s, testnet) == Ok((Envelope(TrimNul(f.command), f.payload, testnet), rest))
  {
  }

  /** A frame of one network is refused on the other. */
  lemma OtherNetworkRejected(hash256: Hasher, e: Envelope, rest: seq<uint8>)
    ensures ParseEnvelope(hash256, EnvelopeBytes(hash256, e) + rest, !e.testnet) == Err(ProtocolMismatch)
  {
    var s := EnvelopeBytes(hash256, e) + rest;
    assert s[0] == Magic(e.testnet)[0] != Magic(!e.testnet)[0];
  }

  /** A frame whose checksum bytes are not those of its payload is refused. */
  lemma BadChecksumRejected(hash256: Hasher, testnet: bool, f: Frame, rest: seq<uint8>)
    requires |f.command| == COMMAND_SIZE && |f.checksum| == 4 && |f.payload| < 0x1_0000_0000
    requires f.checksum != Checksum(hash256, f.payload)
    ensures ParseEnvelope(hash256, Magic(testnet) + (f.command + IntToLittleEndian(|f.payload|, 4) + f.checksum + f.payload + rest),
                          testnet) == Err(ChecksumError)
  {
    var t := f.command + IntToLittleEndian(|f.payload|, 4) + f.checksum + f.payload + rest;
    var s := Magic(testnet) + t;
    assert s[..4] == Magic(testnet) && s[4..] == t;
    ReadFrameOf(f, rest);
  }

  /** `serialize` as ecc/network.go:79 writes it: the result starts from the
      command, so the magic is missing. */
  function EnvelopeBytesAsWritten(hash256: Hasher, e: Envelope): seq<uint8>
  {
    Padded(e.command) + IntToLittleEndian(|e.payload|, 4) + Checksum(hash256, e.payload) + e.payload
  }

  /** No frame serialized as written parses unless its command starts with
      the first magic byte: `parse` takes the command for the magic. */
  lemma AsWrittenRejected(hash256: Hasher, e: Envelope, rest: seq<uint8>)
    requires |e.command| == 0 || e.command[0] != Magic(e.testnet)[0]
    ensures ParseEnvelope(hash256, EnvelopeBytesAsWritten(hash256, e) + rest, e.testnet) == Err(ProtocolMismatch)
  {
    var s := EnvelopeBytesAsWritten(hash256, e) + rest;
    assert s[0] == Padded(e.command)[0];
    assert s[0] != Magic(e.testnet)[0];
  }

  /** The payload of ping and pong: an 8-byte nonce. */
  datatype NonceMessage = NonceMessage(nonce: seq<uint8>)

  /** `PingMessage.parse` and `PongMessage.parse`: eight bytes of nonce. */
  function ParseNonceMessage(s: seq<uint8>): (r: Result<(NonceMessage, seq<uint8>)>)
    ensures r.Ok? <==> |s| >= 8
  {
    var nonce :- ReadBytes(s, 8);
    Ok((NonceMessage(nonce.0), nonce.1))
  }

  /** `PingMessage.serialize` and `PongMessage.serialize`: the nonce itself. */
  function SerializeNonceMessage(m: NonceMessage): seq<uint8>
  {
    m.nonce
  }

  /** An 8-byte nonce survives serialization and parsing. */
  lemma NonceRoundTrip(m: NonceMessage, rest: seq<uint8>)
    requires |m.nonce| == 8
    ensures ParseNonceMessage(SerializeNonceMessage(m) + rest) == Ok((m, rest))
  {
    assert (m.nonce + rest)[..8] == m.nonce;
  }

  /** Eight parsed bytes serialize back to themselves. */
  lemma NonceBytesRoundTrip(s: seq<uint8>)
    requires |s| >= 8
    ensures SerializeNonceMessage(ParseNonceMessage(s).value.0) == s[..8]
  {
  }

  /** The verack message carries nothing. */
  datatype VerAck = VerAck

  /** `VerAckMessage.parse` reads nothing. */
  function ParseVerAck(s: seq<uint8>): (r: Result<(VerAck, seq<uint8>)>)
    ensures r == Ok((VerAck, s))
  {
    Ok((VerAck, s))
  }

  /** `VerAckMessage.serialize`: the empty payload. */
  function SerializeVerAck(v: VerAck): (r: seq<uint8>)
    ensures |r| == 0
  {
    []
  }

  /** A getheaders request: the protocol version, the number of locator
      hashes, the hash to start after and the hash to stop at, in display
      order. */
  datatype GetHeaders = GetHeaders(version: nat, numHashes: nat, startBlock: Digest, endBlock: Digest)

  /** `NewGetHeadersMessage`: a start block is required; the end block
      defaults to 32 zero bytes, asking for as many headers as a reply holds. */
  function NewGetHeaders(version: nat, numHashes: nat, startBlock: Option<Digest>, endBlock: Option<Digest>)
    : (r: Result<GetHeaders>)
    ensures r.Err? <==> startBlock.None?
    ensures r.Ok? ==> r.value.startBlock == startBlock.value && r.value.version == version &&
                      r.value.numHashes == numHashes
    ensures r.Ok? ==> r.value.endBlock == (if endBlock.Some? then endBlock.value else ZeroDigest())
  {
    if startBlock.None? then Err(StartBlockRequired)
    else Ok(GetHeaders(version, numHashes, startBlock.value, if endBlock.Some? then endBlock.value else ZeroDigest()))
  }

  /** `GetHeadersMessage.serialize`: the version (4 bytes little endian),
      the number of hashes as a varint, then both hashes in wire order. */
  function SerializeGetHeaders(g: GetHeaders): (r: Result<seq<uint8>>)
    ensures r.Ok? <==> g.numHashes < 0x1_0000_0000_0000_0000
  {
    var count :- EncodeVarint(g.numHashes);
    Ok(IntToLittleEndian(g.version, 4) + count + Reverse(g.startBlock) + Reverse(g.endBlock))
  }

  /** How a peer reads a getheaders payload. */
  function ParseGetHeaders(s: seq<uint8>): Result<(GetHeaders, seq<uint8>)>
  {
    var version :- ReadLittleEndian(s, 4);
    var count :- ReadVarint(version.1);
    var start :- ReadBytes(count.1, 32);
    var end :- ReadBytes(start.1, 32);
    Ok((GetHeaders(version.0, count.0, Reverse(start.0), Reverse(end.0)), end.1))
  }

  /** A peer reads back the request, its version cut to four bytes. */
  lemma GetHeadersRoundTrip(g: GetHeaders, rest: seq<uint8>)
    requires g.numHashes < 0x1_0000_0000_0000_0000
    ensures ParseGetHeaders(SerializeGetHeaders(g).value + rest) ==
            Ok((g.(version := g.version % 0x1_0000_0000), rest))
  {
    PowValues();
    var hashes := Reverse(g.startBlock) + (Reverse(g.endBlock) + rest);
    var tail := Varint(g.numHashes) + hashes;
    assert SerializeGetHeaders(g).value + rest == IntToLittleEndian(g.version, 4) + tail;
    ReadLittleEndianOf(g.version % 0x1_0000_0000, 4, tail);
    VarintRoundTrip(g.numHashes, hashes);
    ReverseReverse(g.startBlock);
    ReverseReverse(g.endBlock);
    assert ReadBytes(hashes, 32) == Ok((Reverse(g.startBlock), Reverse(g.endBlock) + rest));
    assert ReadBytes(Reverse(g.endBlock) + rest, 32) == Ok((Reverse(g.endBlock), rest));
  }

  /** `serialize` as ecc/network.go:293-294 write it: each hash cut to its
      first 31 bytes (the end block by the start block's length), not
      reversed. */
  function SerializeGetHeadersAsWritten(g: GetHeaders): (r: Result<seq<uint8>>)
  {
    var count :- EncodeVarint(g.numHashes);
    Ok(IntToLittleEndian(g.version, 4) + count + g.startBlock[..31] + g.endBlock[..31])
  }

  /** The request as written is two bytes short, so a peer reading it runs
      out of bytes unless more follow. */
  lemma AsWrittenTooShort(g: GetHeaders)
    requires g.numHashes < 0x1_0000_0000_0000_0000
    ensures |SerializeGetHeadersAsWritten(g).value| + 2 == |SerializeGetHeaders(g).value|
    ensures ParseGetHeaders(SerializeGetHeadersAsWritten(g).value).Err?
  {
    var x := g.startBlock[..31] + g.endBlock[..31];
    var tail := Varint(g.numHashes) + x;
    var s := SerializeGetHeadersAsWritten(g).value;
    assert s == IntToLittleEndian(g.version, 4) + tail;
    assert ReadLittleEndian(s, 4).value.1 == tail;
    PowValues();
    VarintRoundTrip(g.numHashes, x);
    assert ReadBytes(x, 32).value.1 == x[32..];
  }

  /** One header of a headers message: the 80 header bytes and a varint
      transaction count, which must be zero. */
  function ReadHeaderEntry(s: seq<uint8>): (r: Result<(Block.BlockHeader, seq<uint8>)>)
    ensures r.Ok? ==> |r.value.1| < |s|
  {
    var header :- Block.ParseHeader(s);
    var txs :- ReadVarint(header.1);
    if txs.0 != 0 then Err(UnexpectedData) else Ok((header.0, txs.1))
  }

  /** `count` header entries one after the other. */
  function ReadHeaders(s: seq<uint8>, count: nat): (r: Result<(seq<Block.BlockHeader>, seq<uint8>)>)
    ensures r.Ok? ==> |r.value.0| == count
    decreases count
  {
    if count == 0 then Ok(([], s))
    else
      var first :- ReadHeaderEntry(s);
      var tail :- ReadHeaders(first.1, count - 1);
      Ok(([first.0] + tail.0, tail.1))
  }

  /** `HeadersMessage.parse`: a varint count and that many header entries. */
  function ParseHeadersMessage(s: seq<uint8>): (r: Result<(seq<Block.BlockHeader>, seq<uint8>)>)
    ensures r.Ok? ==> ReadVarint(s).Ok? && |r.value.0| == ReadVarint(s).value.0
  {
    var count :- ReadVarint(s);
    ReadHeaders(count.1, count.0)
  }

  /** Headers already read in front of what is still to read. */
  function Prepend(blocks: seq<Block.BlockHeader>, r: Result<(seq<Block.BlockHeader>, seq<uint8>)>)
    : Result<(seq<Block.BlockHeader>, seq<uint8>)>
  {
    match r
    case Err(e) => Err(e)
    case Ok((tail, rest)) => Ok((blocks + tail, rest))
  }

  lemma PrependNothing(r: Result<(seq<Block.BlockHeader>, seq<uint8>)>)
    ensures Prepend([], r) == r
  {
    if r.Ok? {
      assert [] + r.value.0 == r.value.0;
    }
  }

  /** Reading one more entry moves it from what is still to read to what
      was read. */
  lemma PrependEntry(blocks: seq<Block.BlockHeader>, s: seq<uint8>, n: nat)
    requires n > 0 && ReadHeaderEntry(s).Ok?
    ensures Prepend(blocks, ReadHeaders(s, n)) ==
            Prepend(blocks + [ReadHeaderEntry(s).value.0], ReadHeaders(ReadHeaderEntry(s).value.1, n - 1))
  {
    var e := ReadHeaderEntry(s).value;
    var tail := ReadHeaders(e.1, n - 1);
    if tail.Ok? {
      assert blocks + ([e.0] + tail.value.0) == blocks + [e.0] + tail.value.0;
    }
  }

  /** `HeadersMessage.parse`, one entry per iteration. */
  method ParseHeaders(s: seq<uint8>) returns (r: Result<(seq<Block.BlockHeader>, seq<uint8>)>)
    ensures r == ParseHeadersMessage(s)
  {
    var count :- ReadVarint(s);
    var blocks: seq<Block.BlockHeader> := [];
    var rest := count.1;
    var i := 0;
    PrependNothing(ReadHeaders(rest, count.0));
    while i < count.0
      invariant 0 <= i <= count.0
      invariant ReadHeaders(count.1, count.0) == Prepend(blocks, ReadHeaders(rest, count.0 - i))
    {
      var entry := ReadHeaderEntry(rest);
      if entry.Err? {
        return Err(entry.error);
      }
      PrependEntry(blocks, rest, count.0 - i);
      blocks := blocks + [entry.value.0];
      rest := entry.value.1;
      i := i + 1;
    }
    assert blocks + [] == blocks;
    return Ok((blocks, rest));
  }

  /** Header entries on the wire: each header followed by a zero count. */
  function HeaderEntries(blocks: seq<Block.BlockHeader>): seq<uint8>
  {
    if blocks == [] then [] else Block.Serialize(blocks[0]) + [0] + HeaderEntries(blocks[1..])
  }

  /** The headers message a peer sends. */
  function SerializeHeadersMessage(blocks: seq<Block.BlockHeader>): seq<uint8>
    requires |blocks| < 0x1_0000_0000_0000_0000
  {
    Varint(|blocks|) + HeaderEntries(blocks)
  }

  /** One entry written is one entry read. */
  lemma EntryRoundTrip(b: Block.BlockHeader, tail: seq<uint8>)
    ensures ReadHeaderEntry(Block.Serialize(b) + ([0] + tail)) == Ok((b, tail))
  {
    Block.ParseSerialize(b, [0] + tail);
    VarintRoundTrip(0, tail);
  }

  lemma {:induction false} ReadHeaderEntries(blocks: seq<Block.BlockHeader>, rest: seq<uint8>)
    ensures ReadHeaders(HeaderEntries(blocks) + rest, |blocks|) == Ok((blocks, rest))
  {
    if blocks != [] {
      var tail := HeaderEntries(blocks[1..]) + rest;
      var s := HeaderEntries(blocks) + rest;
      assert ReadHeaderEntry(s) == Ok((blocks[0], tail)) by {
        assert s == Block.Serialize(blocks[0]) + ([0] + tail);
        EntryRoundTrip(blocks[0], tail);
      }
      assert ReadHeaders(tail, |blocks| - 1) == Ok((blocks[1..], rest)) by {
        ReadHeaderEntries(blocks[1..], rest);
      }
      assert [blocks[0]] + blocks[1..] == blocks;
    } else {
      assert HeaderEntries(blocks) + rest == rest;
    }
  }

  /** Parsing a headers message gives back the headers it was built from. */
  lemma HeadersRoundTrip(blocks: seq<Block.BlockHeader>, rest: seq<uint8>)
    requires |blocks| < 0x1_0000_0000_0000_0000
    ensures ParseHeadersMessage(SerializeHeadersMessage(blocks) + rest) == Ok((blocks, rest))
  {
    assert SerializeHeadersMessage(blocks) + rest == Varint(|blocks|) + (HeaderEntries(blocks) + rest);
    VarintRoundTrip(|blocks|, HeaderEntries(blocks) + rest);
    ReadHeaderEntries(blocks, rest);
  }

  /** A header followed by a non-zero transaction count is refused. */
  lemma TransactionsRejected(b: Block.BlockHeader, txs: uint64, rest: seq<uint8>, count: nat)
    requires txs != 0 && count > 0
    ensures ReadHeaders(Block.Serialize(b) + Varint(txs) + rest, count) == Err(UnexpectedData)
  {
    assert Block.Serialize(b) + Varint(txs) + rest == Block.Serialize(b) + (Varint(txs) + rest);
    Block.ParseSerialize(b, Varint(txs) + rest);
    VarintRoundTrip(txs, rest);
  }

  /** `HeadersMessage.parse` as written: every header and every transaction
      count is read from the start of the message rather than from where
      the previous read stopped, so the count read back is the header
      count itself. */
  function ReadHeadersAsWritten(s: seq<uint8>, count: nat): (r: Result<seq<Block.BlockHeader>>)
    ensures r.Ok? ==> |r.value| == count
    decreases count
  {
    if count == 0 then Ok([])
    else
      var header :- Block.ParseHeader(s);
      var txs :- ReadVarint(s);
      if txs.0 != 0 then Err(UnexpectedData)
      else
        var tail :- ReadHeadersAsWritten(s, count - 1);
        Ok([header.0] + tail)
  }

  /** The message parser over the as-written loop. */
  function ParseHeadersMessageAsWritten(s: seq<uint8>): (r: Result<(seq<Block.BlockHeader>, seq<uint8>)>)
  {
    var count :- ReadVarint(s);
    var blocks :- ReadHeadersAsWritten(s, count.0);
    Ok((blocks, count.1))
  }

  /** As written, a message that announces one header or more is refused:
      the count read back as the first header's transaction count is not 0. */
  lemma AsWrittenCountRejected(s: seq<uint8>)
    requires ReadVarint(s).Ok? && ReadVarint(s).value.0 >= 1
    ensures ParseHeadersMessageAsWritten(s).Err?
  {
    var n := ReadVarint(s).value.0;
    assert ReadHeadersAsWritten(s, n).Err?;
  }

  /** Every headers message a peer sends with one header or more is refused
      by the as-written parser (`HeadersRoundTrip` reads each of them back). */
  lemma AsWrittenHeadersRejected(blocks: seq<Block.BlockHeader>, rest: seq<uint8>)
    requires 1 <= |blocks| < 0x1_0000_0000_0000_0000
    ensures ParseHeadersMessageAsWritten(SerializeHeadersMessage(blocks) + rest).Err?
  {
    var s := SerializeHeadersMessage(blocks) + rest;
    assert ReadVarint(s) == Ok((|blocks|, HeaderEntries(blocks) + rest)) by {
      assert s == Varint(|blocks|) + (HeaderEntries(blocks) + rest);
      VarintRoundTrip(|blocks|, HeaderEntries(blocks) + rest);
    }
    AsWrittenCountRejected(s);
  }

  /** On a message that announces no headers the two parsers agree. */
  lemma AsWrittenEmptyAgrees(s: seq<uint8>)
    requires ReadVarint(s).Ok? && ReadVarint(s).value.0 == 0
    ensures ParseHeadersMessageAsWritten(s) == ParseHeadersMessage(s)
    ensures ParseHeadersMessage(s) == Ok(([], ReadVarint(s).value.1))
  {
  }
}
