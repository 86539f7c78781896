/** Shared vocabulary of the model: bytes, 32-byte digests, the uninterpreted
    hash functions, the error taxonomy and the result type every parser and
    encoder returns. */
module Common {

  /** An unsigned byte. */
  type uint8 = x: int | 0 <= x < 0x100

  /** An unsigned 32-bit word, the range of the murmur3 hash. */
  type uint32 = x: int | 0 <= x < 0x1_0000_0000

  /** An unsigned 64-bit word, the range of a CompactSize varint. */
  type uint64 = x: int | 0 <= x < 0x1_0000_0000_0000_0000

  /** A 32-byte digest, the output of double SHA-256. */
  type Digest = s: seq<uint8> | |s| == 32 witness ZeroDigest()

  function ZeroDigest(): (d: seq<uint8>)
    ensures |d| == 32
  {
    seq(32, _ => 0)
  }

  /** Double SHA-256 (`hash256`): its internals are not modelled; all that is
      known of it is that it maps bytes to 32 bytes. */
  type Hasher = seq<uint8> -> Digest

  /** The murmur3 variant of BIP 37: item bytes and seed to a 32-bit word. */
  type Murmur = (seq<uint8>, nat) -> uint32

  /** The failures the codec reports instead of panicking. */
  datatype Error =
    | ShortRead          // a fixed-width field or payload ran past the input
    | EncodeError        // a value too large for its encoding
    | LengthError        // a bit field whose length is not a multiple of 8
    | SingleItemLevel    // a Merkle parent level asked of one hash
    | EmptyLevel         // a Merkle root asked of no hashes
    | ConnectionReset    // no magic bytes at all could be read
    | ProtocolMismatch   // magic of another network
    | ChecksumError      // frame or base58 checksum mismatch
    | ProofMalformed     // flags or hashes of a partial Merkle tree do not fit its shape
    | UnexpectedData     // a header in a headers message announcing transactions
    | StartBlockRequired // getheaders without a start block
    | InvalidCharacter   // a character outside the base58 alphabet
    | ZeroSize           // a bloom filter of zero bytes asked to hash an item

  datatype Result<+T> = Ok(value: T) | Err(error: Error) {
    predicate IsFailure() { Err? }

    function PropagateFailure<U>(): Result<U>
      requires Err?
    {
      Err(error)
    }

    function Extract(): T
      requires Ok?
    {
      value
    }
  }

  datatype Option<+T> = None | Some(value: T)

  /** 2 to the power n. */
  function Pow2(n: nat): (r: nat)
    ensures r >= 1
  {
    if n == 0 then 1 else 2 * Pow2(n - 1)
  }

  /** 256 to the power n: the number of values n bytes can hold. */
  function Pow256(n: nat): (r: nat)
    ensures r >= 1
  {
    if n == 0 then 1 else 256 * Pow256(n - 1)
  }

  /** Euclidean division is unique: a quotient and remainder that rebuild n
      are n / m and n % m. */
  lemma DivModUnique(n: int, m: int, a: int, c: int)
    requires m > 0 && 0 <= c < m && n == m * a + c
    ensures n % m == c && n / m == a
  {
    var q, r := n / m, n % m;
    assert m * q + r == m * a + c;
    assert m * (a - q) == r - c by {
      assert m * (a - q) == m * a - m * q;
    }
    MultipleBelowIsZero(m, a - q);
  }

  lemma MultipleBelowIsZero(m: int, d: int)
    requires m > 0 && -m < m * d < m
    ensures d == 0
  {
  }

  /** The quotient of naturals is a natural no larger than the dividend. */
  lemma DivNat(a: int, b: int)
    requires a >= 0 && b > 0
    ensures 0 <= a / b <= a
  {
    var q := a / b;
    assert a == b * q + a % b;
    MulBounds(b, q);
  }

  lemma MulBounds(b: int, q: int)
    requires b >= 1
    ensures q >= 0 ==> b * q >= q
    ensures q < 0 ==> b * q <= -b
  {
    if q >= 0 {
      MulAtLeast(q, b);
    } else {
      MulAtLeast(-q, b);
      assert b * q == -((-q) * b);
    }
  }

  lemma MulAtLeast(a: int, b: int)
    requires a >= 0 && b >= 1
    ensures a * b >= a
  {
    assert a * b == a * (b - 1) + a;
    assert a * (b - 1) >= 0;
  }

  lemma MulMonotone(a: nat, b: nat, c: nat)
    requires b <= c
    ensures a * b <= a * c
  {
  }

  /** n mod b·p splits into n mod b and the quotient mod p. */
  lemma ModSplit(n: nat, b: nat, p: nat)
    requires b >= 1 && p >= 1
    ensures n % (b * p) == n % b + b * ((n / b) % p)
    ensures n / (b * p) == n / b / p
  {
    var q, r1 := n / b, n % b;
    var q2, r2 := q / p, q % p;
    assert n == b * q + r1;
    assert q == p * q2 + r2;
    assert b * q == b * (p * q2) + b * r2;
    assert b * (p * q2) == (b * p) * q2;
    MulMonotone(b, r2, p - 1);
    assert b * (p - 1) == b * p - b;
    DivModUnique(n, b * p, q2, b * r2 + r1);
  }

  lemma Pow2Monotone(a: nat, b: nat)
    requires a <= b
    ensures Pow2(a) <= Pow2(b)
  {
    if a < b { Pow2Monotone(a, b - 1); }
  }

  lemma Pow256Monotone(a: nat, b: nat)
    requires a <= b
    ensures Pow256(a) <= Pow256(b)
  {
    if a < b { Pow256Monotone(a, b - 1); }
  }

  lemma PowValues()
    ensures Pow2(8) == 0x100
    ensures Pow256(1) == 0x100 && Pow256(2) == 0x1_0000 && Pow256(3) == 0x100_0000
    ensures Pow256(4) == 0x1_0000_0000 && Pow256(8) == 0x1_0000_0000_0000_0000
  {
    assert Pow256(4) == 0x1_0000_0000;
  }

  /** The bytes in opposite order: wire order and display order of a hash. */
  function Reverse<T>(s: seq<T>): (r: seq<T>)
    ensures |r| == |s|
    ensures forall i :: 0 <= i < |s| ==> r[i] == s[|s| - 1 - i]
  {
    if s == [] then [] else Reverse(s[1..]) + [s[0]]
  }

  lemma ReverseReverse<T>(s: seq<T>)
    ensures Reverse(Reverse(s)) == s
  {
    assert forall i :: 0 <= i < |s| ==> Reverse(Reverse(s))[i] == s[i];
  }
}
