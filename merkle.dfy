/** Merkle parents, levels and roots over 32-byte hashes (ecc/helper.go). */
module Merkle {
  import opened Common

  /** `merkleParent`: the hash of the two children concatenated. */
  function MerkleParent(hash256: Hasher, left: Digest, right: Digest): Digest
  {
    hash256(left + right)
  }

  /** The partner of hash i of a level: the next one, or itself when it is
      the odd one out at the end. */
  function Partner(n: nat, i: nat): nat
  {
    if i + 1 < n then i + 1 else i
  }

  /** The parent level: hashes paired off left to right, a last odd hash
      paired with itself. */
  function ParentLevel(hash256: Hasher, hashes: seq<Digest>): (r: seq<Digest>)
    ensures |hashes| <= 2 * |r| <= |hashes| + 1
    ensures forall k :: 0 <= k < |r| ==>
      r[k] == MerkleParent(hash256, hashes[2 * k], hashes[Partner(|hashes|, 2 * k)])
  {
    var n := |hashes| - |hashes| / 2;
    seq(n, k requires 0 <= k < n => MerkleParent(hash256, hashes[2 * k], hashes[Partner(|hashes|, 2 * k)]))
  }

  /** `merkleParentLevel`: a level of one hash has no parent level; an odd
      level gets its last hash repeated before the hashes are paired. */
  method MerkleParentLevel(hash256: Hasher, hashes: seq<Digest>) returns (r: Result<seq<Digest>>)
    ensures |hashes| == 1 ==> r == Err(SingleItemLevel)
    ensures |hashes| != 1 ==> r == Ok(ParentLevel(hash256, hashes))
  {
    if |hashes| == 1 {
      return Err(SingleItemLevel);
    }
    var level := hashes;
    if |level| % 2 == 1 {
      level := level + [level[|level| - 1]];
    }
    ghost var pairs := |level| / 2;
    assert |level| == 2 * pairs;
    var parentLevel: seq<Digest> := [];
    var i := 0;
    while i < |level|
      invariant 0 <= i <= |level| && i == 2 * |parentLevel|
      invariant forall k :: 0 <= k < |parentLevel| ==>
        parentLevel[k] == MerkleParent(hash256, level[2 * k], level[2 * k + 1])
    {
      var parent := MerkleParent(hash256, level[i], level[i + 1]);
      parentLevel := parentLevel + [parent];
      i := i + 2;
    }
    var expected := ParentLevel(hash256, hashes);
    assert |parentLevel| == pairs == |expected|;
    forall k | 0 <= k < |parentLevel|
      ensures parentLevel[k] == expected[k]
    {
      assert level[2 * k] == hashes[2 * k];
      assert level[2 * k + 1] == hashes[Partner(|hashes|, 2 * k)];
    }
    assert parentLevel == expected;
    return Ok(parentLevel);
  }

  /** The Merkle root: parent levels taken until one hash is left. No
      hashes have no root. */
  function Root(hash256: Hasher, hashes: seq<Digest>): Result<Digest>
    decreases |hashes|
  {
    if |hashes| == 0 then Err(EmptyLevel)
    else if |hashes| == 1 then Ok(hashes[0])
    else Root(hash256, ParentLevel(hash256, hashes))
  }

  /** `merkleRoot`: repeats `merkleParentLevel` while more than one hash is left. */
  method MerkleRoot(hash256: Hasher, hashes: seq<Digest>) returns (r: Result<Digest>)
    ensures r == Root(hash256, hashes)
    ensures r.Err? <==> |hashes| == 0
    ensures |hashes| == 1 ==> r == Ok(hashes[0])
  {
    if |hashes| == 0 {
      return Err(EmptyLevel);
    }
    var currentLevel := hashes;
    while |currentLevel| > 1
      invariant |currentLevel| >= 1
      invariant Root(hash256, currentLevel) == Root(hash256, hashes)
      decreases |currentLevel|
    {
      var next := MerkleParentLevel(hash256, currentLevel);
      currentLevel := next.value;
    }
    RootNonEmpty(hash256, hashes);
    return Ok(currentLevel[0]);
  }

  /** Every non-empty list of hashes has a root. */
  lemma {:induction false} RootNonEmpty(hash256: Hasher, hashes: seq<Digest>)
    ensures Root(hash256, hashes).Ok? <==> |hashes| > 0
    decreases |hashes|
  {
    if |hashes| > 1 {
      RootNonEmpty(hash256, ParentLevel(hash256, hashes));
    }
  }

  /** Repeating the last hash of an odd level does not change its parent
      level, so two different hash lists share a root: the duplication the
      odd-level rule allows. */
  lemma DuplicateLastSameParents(hash256: Hasher, hashes: seq<Digest>)
    requires |hashes| % 2 == 1
    ensures ParentLevel(hash256, hashes + [hashes[|hashes| - 1]]) == ParentLevel(hash256, hashes)
  {
    var padded := hashes + [hashes[|hashes| - 1]];
    var a, b := ParentLevel(hash256, padded), ParentLevel(hash256, hashes);
    var q := |hashes| / 2;
    assert |hashes| == 2 * q + 1;
    assert |a| == q + 1 == |b|;
    forall k | 0 <= k < |a|
      ensures a[k] == b[k]
    {
      assert padded[2 * k + 1] == hashes[Partner(|hashes|, 2 * k)];
    }
  }

  lemma DuplicateLastSameRoot(hash256: Hasher, hashes: seq<Digest>)
    requires |hashes| % 2 == 1 && |hashes| > 1
    ensures Root(hash256, hashes + [hashes[|hashes| - 1]]) == Root(hash256, hashes)
  {
    DuplicateLastSameParents(hash256, hashes);
  }

  /** The root of a perfect tree of height h, defined top-down: the parent
      of the roots of the two halves. */
  function TreeHash(hash256: Hasher, leaves: seq<Digest>, h: nat): Digest
    requires |leaves| == Pow2(h)
  {
    if h == 0 then leaves[0]
    else
      var half := Pow2(h - 1);
      MerkleParent(hash256, TreeHash(hash256, leaves[..half], h - 1), TreeHash(hash256, leaves[half..], h - 1))
  }

  /** On 2^h leaves, the level-by-level root is the top-down tree hash. */
  lemma {:induction false} RootIsTreeHash(hash256: Hasher, leaves: seq<Digest>, h: nat)
    requires |leaves| == Pow2(h)
    ensures Root(hash256, leaves) == Ok(TreeHash(hash256, leaves, h))
    decreases h
  {
    if h > 0 {
      var parents := ParentLevel(hash256, leaves);
      TreeHashOfParents(hash256, leaves, h);
      RootIsTreeHash(hash256, parents, h - 1);
    }
  }

  /** One level up, the perfect tree keeps its root and loses one level. */
  lemma {:induction false} TreeHashOfParents(hash256: Hasher, leaves: seq<Digest>, h: nat)
    requires h > 0 && |leaves| == Pow2(h)
    ensures |ParentLevel(hash256, leaves)| == Pow2(h - 1)
    ensures TreeHash(hash256, ParentLevel(hash256, leaves), h - 1) == TreeHash(hash256, leaves, h)
  {
    var parents := ParentLevel(hash256, leaves);
    var half := Pow2(h - 1);
    assert |parents| == half;
    if h > 1 {
      var quarter := Pow2(h - 2);
      var left, right := leaves[..half], leaves[half..];
      assert half == 2 * quarter;
      ParentsSplit(hash256, leaves, half, quarter);
      TreeHashOfParents(hash256, left, h - 1);
      TreeHashOfParents(hash256, right, h - 1);
      TreeHashCombine(hash256, leaves, parents, h);
    }
  }

  /** Parents whose halves have the tree hashes of the halves of the leaves
      have the tree hash of the leaves. */
  lemma TreeHashCombine(hash256: Hasher, leaves: seq<Digest>, parents: seq<Digest>, h: nat)
    requires h >= 2 && |leaves| == Pow2(h) && |parents| == Pow2(h - 1)
    requires TreeHash(hash256, parents[..Pow2(h - 2)], h - 2) == TreeHash(hash256, leaves[..Pow2(h - 1)], h - 1)
    requires TreeHash(hash256, parents[Pow2(h - 2)..], h - 2) == TreeHash(hash256, leaves[Pow2(h - 1)..], h - 1)
    ensures TreeHash(hash256, parents, h - 1) == TreeHash(hash256, leaves, h)
  {
  }

  /** The parents of an even-length list split after pair j are the parents
      of each part. */
  lemma ParentsSplit(hash256: Hasher, hashes: seq<Digest>, pairs: nat, j: nat)
    requires |hashes| == 2 * pairs && j <= pairs
    ensures |ParentLevel(hash256, hashes)| == pairs
    ensures ParentLevel(hash256, hashes)[..j] == ParentLevel(hash256, hashes[..2 * j])
    ensures ParentLevel(hash256, hashes)[j..] == ParentLevel(hash256, hashes[2 * j..])
  {
    ParentsPrefix(hash256, hashes, pairs, j);
    ParentsSuffix(hash256, hashes, pairs, j);
  }

  lemma ParentsPrefix(hash256: Hasher, hashes: seq<Digest>, pairs: nat, j: nat)
    requires |hashes| == 2 * pairs && j <= pairs
    ensures ParentLevel(hash256, hashes)[..j] == ParentLevel(hash256, hashes[..2 * j])
  {
    var p, l := ParentLevel(hash256, hashes), ParentLevel(hash256, hashes[..2 * j]);
    assert |p[..j]| == |l|;
    forall k | 0 <= k < |l|
      ensures p[k] == l[k]
    {
    }
  }

  lemma ParentsSuffix(hash256: Hasher, hashes: seq<Digest>, pairs: nat, j: nat)
    requires |hashes| == 2 * pairs && j <= pairs
    ensures ParentLevel(hash256, hashes)[j..] == ParentLevel(hash256, hashes[2 * j..])
  {
    var p, r := ParentLevel(hash256, hashes), ParentLevel(hash256, hashes[2 * j..]);
    assert |p| == pairs && |r| == pairs - j;
    forall k | 0 <= k < pairs - j
      ensures p[j..][k] == r[k]
    {
      ParentShift(hash256, hashes, pairs, j, k);
    }
  }

  /** Parent j + k of a level is parent k of the level without its first
      2j hashes. */
  lemma ParentShift(hash256: Hasher, hashes: seq<Digest>, pairs: nat, j: nat, k: nat)
    requires |hashes| == 2 * pairs && j + k < pairs
    ensures ParentLevel(hash256, hashes)[j + k] == ParentLevel(hash256, hashes[2 * j..])[k]
  {
    var tail := hashes[2 * j..];
    assert |tail| == 2 * (pairs - j);
    assert Partner(|hashes|, 2 * (j + k)) == 2 * (j + k) + 1;
    assert Partner(|tail|, 2 * k) == 2 * k + 1;
    assert tail[2 * k] == hashes[2 * (j + k)];
    assert tail[2 * k + 1] == hashes[2 * (j + k) + 1];
  }
}
