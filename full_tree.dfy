/** The partial Merkle tree of a block whose every transaction matched:
    every node's flag bit is 1 and every leaf hash is sent. The traversal
    of `populateTree` then rebuilds the levels `merkleParentLevel` computes,
    and its root is the Merkle root `merkleRoot` computes over all the
    leaves (ecc/helper.go, ecc/merkelblock.go). */
module FullTree {
  import opened Common
  import opened Merkle
  import opened PartialMerkle

  /** The first leaf under slot (d, j) of a pyramid with |w| levels: the
      first slot of each level below is twice the one above. */
  function First(w: seq<nat>, d: nat, j: nat): nat
    requires d < |w|
    decreases |w| - d
  {
    if d == |w| - 1 then j else First(w, d + 1, 2 * j)
  }

  /** Slot (d, j) starts j subtrees of 2^(|w| - 1 - d) leaves from the left. */
  lemma {:induction false} FirstIs(w: seq<nat>, d: nat, j: nat)
    requires d < |w|
    ensures First(w, d, j) == j * Pow2(|w| - 1 - d)
    decreases |w| - d
  {
    if d < |w| - 1 {
      var p := Pow2(|w| - 1 - (d + 1));
      FirstIs(w, d + 1, 2 * j);
      assert Pow2(|w| - 1 - d) == 2 * p;
      assert (2 * j) * p == j * (2 * p);
    }
  }

  /** Slots further right start further right. */
  lemma {:induction false} FirstMonotone(w: seq<nat>, d: nat, j: nat)
    requires d < |w|
    ensures First(w, d, j) < First(w, d, j + 1)
    decreases |w| - d
  {
    if d < |w| - 1 {
      FirstMonotone(w, d + 1, 2 * j);
      FirstMonotone(w, d + 1, 2 * j + 1);
    }
  }

  /** One past the last leaf under slot (d, j) of a tree over t leaves. */
  function Hi(w: seq<nat>, t: nat, d: nat, j: nat): nat
    requires d < |w|
  {
    if First(w, d, j + 1) < t then First(w, d, j + 1) else t
  }

  /** Slot (d, j) exists exactly when its first leaf is one of the t leaves. */
  predicate Fits(w: seq<nat>, t: nat, d: nat, j: nat)
    requires d < |w|
  {
    j < w[d] <==> First(w, d, j) < t
  }

  /** The slots of the pyramid over t leaves: slot (d, j) exists exactly
      when its first leaf does; the levels halve upwards, the bottom level
      holds the leaves, and the tree is no higher than it needs to be (the
      level below the root has two slots). */
  ghost predicate Shape(w: seq<nat>, t: nat)
  {
    Pyramid(w) && w[|w| - 1] == t &&
    (forall d, j :: 0 <= d < |w| ==> Fits(w, t, d, j)) &&
    (|w| >= 2 ==> w[1] >= 2)
  }

  /** j slots of p leaves start before leaf t exactly when j < ceil(t / p). */
  lemma CeilDivCovers(t: nat, p: nat, j: nat)
    requires t >= 1 && p >= 1
    ensures j < CeilDiv(t, p) <==> j * p < t
  {
    var c := CeilDiv(t, p);
    CeilDivBounds(t, p);
    if j < c {
      MulMonotone(p, j, c - 1);
    } else {
      MulMonotone(p, c, j);
    }
  }

  /** In the widths `NewMerkleTree` allocates for a tree of depth m, slot
      (d, j) exists exactly when its first leaf does. */
  lemma WidthFits(total: nat, m: nat, d: nat, j: nat)
    requires total >= 1 && d <= m
    ensures Fits(LevelWidths(total, m), total, d, j)
  {
    var w := LevelWidths(total, m);
    var p := Pow2(m - d);
    FirstIs(w, d, j);
    assert w[d] == CeilDiv(total, p);
    CeilDivCovers(total, p, j);
  }

  /** With more than 2^(m - 1) leaves, level 1 has two slots. */
  lemma WidthBelowRoot(total: nat, m: nat)
    requires m >= 1 && Pow2(m - 1) < total
    ensures LevelWidths(total, m)[1] >= 2
  {
    var p := Pow2(m - 1);
    assert LevelWidths(total, m)[1] == CeilDiv(total, p);
    CeilDivCovers(total, p, 1);
  }

  /** The level widths `NewMerkleTree` allocates have the shape of the tree
      over `total` leaves. */
  lemma LevelWidthsShape(total: nat)
    requires total >= 1
    ensures Shape(LevelWidths(total, CeilLog2(total)), total)
  {
    var m := CeilLog2(total);
    var w := LevelWidths(total, m);
    LevelWidthsPyramid(total);
    forall d, j | 0 <= d < |w|
      ensures Fits(w, total, d, j)
    {
      WidthFits(total, m, d, j);
    }
    if m >= 1 {
      WidthBelowRoot(total, m);
    }
  }

  /** Every level below the root of a tree of minimal height has two slots or more. */
  lemma {:induction false} WideBelowRoot(w: seq<nat>, t: nat, d: nat)
    requires Shape(w, t) && 1 <= d < |w|
    ensures w[d] >= 2
  {
    if d > 1 {
      WideBelowRoot(w, t, d - 1);
    }
  }

  /** Level d of the tree over `leaves`, built bottom up by parent levels:
      it has as many hashes as the pyramid has slots at depth d. */
  function Level(hash256: Hasher, leaves: seq<Digest>, w: seq<nat>, d: nat): (r: seq<Digest>)
    requires Pyramid(w) && |leaves| == w[|w| - 1] && d < |w|
    ensures |r| == w[d]
    decreases |w| - d
  {
    if d == |w| - 1 then leaves
    else ParentLevel(hash256, Level(hash256, leaves, w, d + 1))
  }

  /** The number of nodes of the subtree under slot (d, i): the flag bits
      its traversal reads when every flag is 1. */
  function Count(w: seq<nat>, d: nat, i: nat): (n: nat)
    requires d < |w|
    ensures n >= 1
    decreases |w| - d
  {
    if d == |w| - 1 then 1
    else
      1 + Count(w, d + 1, 2 * i) +
      (if 2 * i + 1 < w[d + 1] then Count(w, d + 1, 2 * i + 1) else 0)
  }

  /** The first n flag bits are all 1. */
  predicate Ones(flags: seq<int>, n: nat)
  {
    n <= |flags| && forall k :: 0 <= k < n ==> flags[k] == 1
  }

  lemma OnesDrop(flags: seq<int>, a: nat, n: nat)
    requires Ones(flags, a + n)
    ensures Ones(flags[a..], n)
  {
  }

  /** Dropping the root's flag, then a left subtree's flags, then a right
      subtree's flags drops them all at once. */
  lemma DropDrop(flags: seq<int>, a: nat, b: nat)
    requires 1 + a + b <= |flags|
    ensures flags[1..][a..][b..] == flags[1 + a + b..]
  {
  }

  /** The leaves of slot (d, i) are those of its left child followed by
      those of its right child, if it has one. */
  lemma Halves(w: seq<nat>, t: nat, d: nat, i: nat)
    requires Shape(w, t) && d < |w| - 1
    ensures First(w, d, i) == First(w, d + 1, 2 * i)
    ensures 2 * i + 1 < w[d + 1] ==>
      Hi(w, t, d + 1, 2 * i) == First(w, d + 1, 2 * i + 1) && Hi(w, t, d + 1, 2 * i + 1) == Hi(w, t, d, i)
    ensures 2 * i + 1 >= w[d + 1] ==> Hi(w, t, d + 1, 2 * i) == Hi(w, t, d, i)
  {
    assert Fits(w, t, d + 1, 2 * i + 1);
    FirstMonotone(w, d + 1, 2 * i + 1);
  }

  /** Slot i of a level above the leaves is the parent of slot 2i of the
      level below and of its right neighbour, or of itself when there is none. */
  lemma LevelParent(hash256: Hasher, leaves: seq<Digest>, w: seq<nat>, d: nat, i: nat)
    requires Pyramid(w) && |leaves| == w[|w| - 1] && d < |w| - 1 && i < w[d]
    ensures var below := Level(hash256, leaves, w, d + 1);
      2 * i < |below| &&
      Level(hash256, leaves, w, d)[i] == MerkleParent(hash256, below[2 * i], below[Partner(|below|, 2 * i)])
  {
    var below := Level(hash256, leaves, w, d + 1);
    var up := Level(hash256, leaves, w, d);
    assert up == ParentLevel(hash256, below);
    assert i < |up|;
  }

  /** The traversal at an internal node with a flag of 1 whose two
      children give the hashes of the level below. */
  lemma NodeBoth(hash256: Hasher, w: seq<nat>, d: nat, i: nat, flags: seq<int>, hashes: seq<Digest>,
                 below: seq<Digest>, fl: seq<int>, fr: seq<int>, hl: seq<Digest>, hr: seq<Digest>)
    requires d < |w| - 1 && |flags| > 0 && flags[0] == 1 && 2 * i + 1 < w[d + 1] && 2 * i + 1 < |below|
    requires Extract(hash256, w, d + 1, 2 * i, flags[1..], hashes) == Ok((below[2 * i], fl, hl))
    requires Extract(hash256, w, d + 1, 2 * i + 1, fl, hl) == Ok((below[2 * i + 1], fr, hr))
    ensures Extract(hash256, w, d, i, flags, hashes)
         == Ok((MerkleParent(hash256, below[2 * i], below[Partner(|below|, 2 * i)]), fr, hr))
  {
    ExtractInternal(hash256, w, d, i, flags, hashes, (below[2 * i], fl, hl));
  }

  /** The traversal at an internal node with a flag of 1 and no right
      child: the left child is paired with itself. */
  lemma NodeLeft(hash256: Hasher, w: seq<nat>, d: nat, i: nat, flags: seq<int>, hashes: seq<Digest>,
                 below: seq<Digest>, fl: seq<int>, hl: seq<Digest>)
    requires d < |w| - 1 && |flags| > 0 && flags[0] == 1 && 2 * i + 1 >= w[d + 1] && |below| == w[d + 1]
    requires 2 * i < |below|
    requires Extract(hash256, w, d + 1, 2 * i, flags[1..], hashes) == Ok((below[2 * i], fl, hl))
    ensures Extract(hash256, w, d, i, flags, hashes)
         == Ok((MerkleParent(hash256, below[2 * i], below[Partner(|below|, 2 * i)]), fl, hl))
  {
    ExtractInternal(hash256, w, d, i, flags, hashes, (below[2 * i], fl, hl));
  }

  /** With every flag of the subtree 1 and the hashes starting at the
      subtree's first leaf, the traversal of slot (d, i) gives the slot's
      hash in the bottom-up level, reads the subtree's flags and consumes
      exactly the subtree's leaves. */
  lemma {:induction false} FullExtract(hash256: Hasher, leaves: seq<Digest>, w: seq<nat>, d: nat, i: nat, flags: seq<int>)
    requires Shape(w, |leaves|) && d < |w| && i < w[d]
    requires Ones(flags, Count(w, d, i))
    ensures First(w, d, i) < |leaves|
    ensures Extract(hash256, w, d, i, flags, leaves[First(w, d, i)..])
         == Ok((Level(hash256, leaves, w, d)[i], flags[Count(w, d, i)..], leaves[Hi(w, |leaves|, d, i)..]))
    decreases |w| - d, 1
  {
    if d == |w| - 1 {
      assert leaves[i..][1..] == leaves[i + 1..];
    } else if 2 * i + 1 < w[d + 1] {
      FullBoth(hash256, leaves, w, d, i, flags);
    } else {
      FullLeft(hash256, leaves, w, d, i, flags);
    }
  }

  /** `FullExtract` at an internal slot with two children. */
  lemma {:induction false} FullBoth(hash256: Hasher, leaves: seq<Digest>, w: seq<nat>, d: nat, i: nat, flags: seq<int>)
    requires Shape(w, |leaves|) && d < |w| - 1 && i < w[d] && 2 * i + 1 < w[d + 1]
    requires Ones(flags, Count(w, d, i))
    ensures First(w, d, i) < |leaves|
    ensures Extract(hash256, w, d, i, flags, leaves[First(w, d, i)..])
         == Ok((Level(hash256, leaves, w, d)[i], flags[Count(w, d, i)..], leaves[Hi(w, |leaves|, d, i)..]))
    decreases |w| - d, 0
  {
    var t := |leaves|;
    var below := Level(hash256, leaves, w, d + 1);
    var cl := Count(w, d + 1, 2 * i);
    var cr := Count(w, d + 1, 2 * i + 1);
    var fl := flags[1..][cl..];
    var fr := fl[cr..];
    assert Fits(w, t, d + 1, 2 * i) && Fits(w, t, d + 1, 2 * i + 1);
    var hs := leaves[First(w, d + 1, 2 * i)..];
    var hm := leaves[First(w, d + 1, 2 * i + 1)..];
    var hr := leaves[Hi(w, t, d + 1, 2 * i + 1)..];
    assert Extract(hash256, w, d + 1, 2 * i, flags[1..], hs) == Ok((below[2 * i], fl, hm)) by {
      Halves(w, t, d, i);
      OnesDrop(flags, 1, Count(w, d, i) - 1);
      OnesDrop(flags[1..], 0, cl);
      FullExtract(hash256, leaves, w, d + 1, 2 * i, flags[1..]);
    }
    assert Extract(hash256, w, d + 1, 2 * i + 1, fl, hm) == Ok((below[2 * i + 1], fr, hr)) by {
      OnesDrop(flags, 1, Count(w, d, i) - 1);
      OnesDrop(flags[1..], cl, cr);
      FullExtract(hash256, leaves, w, d + 1, 2 * i + 1, fl);
    }
    var parent := MerkleParent(hash256, below[2 * i], below[Partner(|below|, 2 * i)]);
    assert Extract(hash256, w, d, i, flags, hs) == Ok((parent, fr, hr)) by {
      NodeBoth(hash256, w, d, i, flags, hs, below, fl, fr, hm, hr);
    }
    assert Level(hash256, leaves, w, d)[i] == parent by { LevelParent(hash256, leaves, w, d, i); }
    assert hr == leaves[Hi(w, t, d, i)..] by { Halves(w, t, d, i); }
    assert fr == flags[Count(w, d, i)..] by { DropDrop(flags, cl, cr); }
  }

  /** `FullExtract` at an internal slot with a left child only. */
  lemma {:induction false} FullLeft(hash256: Hasher, leaves: seq<Digest>, w: seq<nat>, d: nat, i: nat, flags: seq<int>)
    requires Shape(w, |leaves|) && d < |w| - 1 && i < w[d] && 2 * i + 1 >= w[d + 1]
    requires Ones(flags, Count(w, d, i))
    ensures First(w, d, i) < |leaves|
    ensures Extract(hash256, w, d, i, flags, leaves[First(w, d, i)..])
         == Ok((Level(hash256, leaves, w, d)[i], flags[Count(w, d, i)..], leaves[Hi(w, |leaves|, d, i)..]))
    decreases |w| - d, 0
  {
    var t := |leaves|;
    Halves(w, t, d, i);
    var below := Level(hash256, leaves, w, d + 1);
    var cl := Count(w, d + 1, 2 * i);
    var fl := flags[1..][cl..];
    assert Ones(flags[1..], cl) by { OnesDrop(flags, 1, Count(w, d, i) - 1); OnesDrop(flags[1..], 0, cl); }
    FullExtract(hash256, leaves, w, d + 1, 2 * i, flags[1..]);
    LevelParent(hash256, leaves, w, d, i);
    NodeLeft(hash256, w, d, i, flags, leaves[First(w, d + 1, 2 * i)..], below, fl, leaves[Hi(w, t, d + 1, 2 * i)..]);
    assert fl == flags[Count(w, d, i)..];
  }

  /** Every level below the root has at least two hashes, so the Merkle
      root of each level is that of the leaves. */
  lemma {:induction false} RootOfLevel(hash256: Hasher, leaves: seq<Digest>, w: seq<nat>, d: nat)
    requires Shape(w, |leaves|) && d < |w|
    ensures Root(hash256, Level(hash256, leaves, w, d)) == Root(hash256, leaves)
    decreases |w| - d
  {
    if d < |w| - 1 {
      RootOfLevel(hash256, leaves, w, d + 1);
      WideBelowRoot(w, |leaves|, d + 1);
    }
  }

  /** The root of the bottom-up levels is the Merkle root of the leaves. */
  lemma FullRoot(hash256: Hasher, leaves: seq<Digest>, w: seq<nat>)
    requires Shape(w, |leaves|)
    ensures Root(hash256, leaves) == Ok(Level(hash256, leaves, w, 0)[0])
  {
    RootOfLevel(hash256, leaves, w, 0);
  }

  /** The flag bits of a full proof: a 1 for every node, then any padding
      of zeros. */
  predicate FullFlags(w: seq<nat>, flags: seq<int>)
    requires |w| >= 1
  {
    Ones(flags, Count(w, 0, 0)) && AllZero(flags[Count(w, 0, 0)..])
  }

  /** Over any pyramid of the right shape, a full proof rebuilds the
      Merkle root of the leaves. */
  lemma ShapePopulate(hash256: Hasher, leaves: seq<Digest>, w: seq<nat>, flags: seq<int>)
    requires Shape(w, |leaves|) && FullFlags(w, flags)
    ensures Populate(hash256, w, flags, leaves) == Root(hash256, leaves)
  {
    var t := |leaves|;
    assert First(w, 0, 0) == 0 by { FirstIs(w, 0, 0); }
    assert Hi(w, t, 0, 0) == t by { assert Fits(w, t, 0, 1); }
    assert leaves[First(w, 0, 0)..] == leaves;
    FullExtract(hash256, leaves, w, 0, 0, flags);
    FullRoot(hash256, leaves, w);
  }

  /** A proof that sends every leaf with every flag bit set rebuilds the
      Merkle root of all the leaves: `populateTree` and `merkleRoot` agree
      when nothing is pruned. */
  lemma FullPopulate(hash256: Hasher, leaves: seq<Digest>, flags: seq<int>)
    requires |leaves| >= 1
    requires FullFlags(LevelWidths(|leaves|, CeilLog2(|leaves|)), flags)
    ensures Populate(hash256, LevelWidths(|leaves|, CeilLog2(|leaves|)), flags, leaves) == Root(hash256, leaves)
  {
    LevelWidthsShape(|leaves|);
    ShapePopulate(hash256, leaves, LevelWidths(|leaves|, CeilLog2(|leaves|)), flags);
  }
}
