/** The partial Merkle tree of a BIP 37 merkleblock message
    (ecc/merkelblock.go): a pyramid of slots, all unknown at first, filled
    by a cursor walking depth first while it consumes flag bits and hashes.

    The walk is modelled twice: `Step` is one iteration of the source's
    loop on an abstract state, and `Extract` is the recursive traversal of
    section "Partial Merkle branch format" of BIP 37. `Visit` proves that the
    loop, started at an unknown node, reaches the node's parent with the
    node holding the hash `Extract` computes; `MerkleTree.PopulateTree`
    runs the loop and is proved to return exactly `Populate`. */
module PartialMerkle {
  import opened Common
  import opened Merkle

  /** `ceil(n / p)`, the number of slots of a level. */
  function CeilDiv(n: nat, p: nat): nat
    requires p >= 1
  {
    (n + p - 1) / p
  }

  /** `ceil(log2 n)`: the smallest depth whose 2^depth leaves hold n. */
  function CeilLog2(n: nat): (r: nat)
    ensures n <= Pow2(r)
    ensures r > 0 ==> Pow2(r - 1) < n
  {
    if n <= 1 then 0
    else
      var m := (n + 1) / 2;
      assert n <= 2 * m <= n + 1;
      1 + CeilLog2(m)
  }

  /** Level widths: level 0 is the single root slot and each level has
      half as many slots as the one below it, rounded up. */
  predicate Pyramid(widths: seq<nat>)
  {
    |widths| >= 1 && widths[0] == 1 &&
    forall d :: 0 <= d < |widths| - 1 ==> widths[d + 1] <= 2 * widths[d] <= widths[d + 1] + 1
  }

  /** A slot of the pyramid: (depth, index). */
  type Slot = (int, int)

  /** The state the source's loop works on: the known slots (a slot absent
      from `known` is unknown), the cursor (`currentDepth`, `currentIndex`)
      and what is left of the flag bits and the hashes. The level widths
      never change and are passed alongside. */
  datatype Walk = Walk(known: map<Slot, Digest>, depth: int, index: int, flags: seq<int>, hashes: seq<Digest>)

  /** The root slot is known: the loop's exit condition. */
  predicate Done(s: Walk)
  {
    (0, 0) in s.known
  }

  /** The cursor names a slot of the pyramid. */
  predicate OnSlot(widths: seq<nat>, s: Walk)
  {
    0 <= s.depth < |widths| && 0 <= s.index < widths[s.depth]
  }

  /** A well-formed pyramid whose cursor is on a slot while the root is unknown. */
  predicate Sound(widths: seq<nat>, s: Walk)
  {
    Pyramid(widths) && (!Done(s) ==> OnSlot(widths, s))
  }

  /** Every filled slot is a slot of the pyramid. */
  predicate KnownOnSlots(widths: seq<nat>, s: Walk)
  {
    forall k :: k in s.known ==> 0 <= k.0 < |widths| && 0 <= k.1 < widths[k.0]
  }

  /** `setCurrentNode(h)` followed by `up()`. */
  function Store(s: Walk, h: Digest): Walk
  {
    s.(known := s.known[(s.depth, s.index) := h], depth := s.depth - 1, index := s.index / 2)
  }

  /** The left child of a slot off the bottom level is a slot. */
  lemma ChildInRange(widths: seq<nat>, d: nat, i: nat)
    requires Pyramid(widths) && d + 1 < |widths| && i < widths[d]
    ensures 2 * i < widths[d + 1]
  {
    assert 2 * widths[d] <= widths[d + 1] + 1;
  }

  /** The parent of a slot below the root is a slot. */
  lemma ParentInRange(widths: seq<nat>, d: nat, i: nat)
    requires Pyramid(widths) && 0 < d < |widths| && i < widths[d]
    ensures i / 2 < widths[d - 1]
  {
    assert widths[d] <= 2 * widths[d - 1];
  }

  /** One iteration of `populateTree`'s loop. Popping from an empty flag or
      hash list fails. */
  function Step(hash256: Hasher, widths: seq<nat>, s: Walk): (r: Result<Walk>)
    requires Sound(widths, s) && !Done(s)
    ensures r.Ok? ==> Sound(widths, r.value)
  {
    var d, i := s.depth, s.index;
    assert d > 0 ==> i / 2 < widths[d - 1] by {
      if d > 0 { ParentInRange(widths, d, i); }
    }
    if d == |widths| - 1 then
      // A leaf: one flag and one hash are consumed.
      if |s.flags| == 0 || |s.hashes| == 0 then Err(ProofMalformed)
      else Ok(Store(s, s.hashes[0]).(flags := s.flags[1..], hashes := s.hashes[1..]))
    else
      ChildInRange(widths, d, i);
      var left := (d + 1, 2 * i);
      if left !in s.known then
        if |s.flags| == 0 then Err(ProofMalformed)
        else if s.flags[0] == 0 then
          // Flag 0: the node's hash is given.
          if |s.hashes| == 0 then Err(ProofMalformed)
          else Ok(Store(s, s.hashes[0]).(flags := s.flags[1..], hashes := s.hashes[1..]))
        else
          Ok(s.(flags := s.flags[1..], depth := d + 1, index := 2 * i))
      else if 2 * i + 1 < widths[d + 1] then
        var right := (d + 1, 2 * i + 1);
        if right !in s.known then Ok(s.(depth := d + 1, index := 2 * i + 1))
        else Ok(Store(s, MerkleParent(hash256, s.known[left], s.known[right])))
      else
        Ok(Store(s, MerkleParent(hash256, s.known[left], s.known[left])))
  }

  /** Up to n iterations; none once the root is known. */
  function Steps(hash256: Hasher, widths: seq<nat>, s: Walk, n: nat): (r: Result<Walk>)
    requires Sound(widths, s)
    ensures r.Ok? ==> Sound(widths, r.value)
    decreases n
  {
    if n == 0 || Done(s) then Ok(s)
    else
      match Step(hash256, widths, s)
      case Err(e) => Err(e)
      case Ok(t) => Steps(hash256, widths, t, n - 1)
  }

  /** An iteration fills only the slot under the cursor, so the filled slots
      stay inside the pyramid. */
  lemma StepKeepsSlots(hash256: Hasher, widths: seq<nat>, s: Walk)
    requires Sound(widths, s) && !Done(s) && KnownOnSlots(widths, s)
    ensures Step(hash256, widths, s).Ok? ==> KnownOnSlots(widths, Step(hash256, widths, s).value)
  {
  }

  /** So do any number of iterations. */
  lemma {:induction false} StepsKeepSlots(hash256: Hasher, widths: seq<nat>, s: Walk, n: nat)
    requires Sound(widths, s) && KnownOnSlots(widths, s)
    ensures Steps(hash256, widths, s, n).Ok? ==> KnownOnSlots(widths, Steps(hash256, widths, s, n).value)
    decreases n
  {
    if n > 0 && !Done(s) {
      var r := Step(hash256, widths, s);
      if r.Ok? {
        StepKeepsSlots(hash256, widths, s);
        StepsKeepSlots(hash256, widths, r.value, n - 1);
      }
    }
  }

  /** n more iterations after r, unless r failed. */
  function Then(hash256: Hasher, widths: seq<nat>, r: Result<Walk>, n: nat): Result<Walk>
    requires r.Ok? ==> Sound(widths, r.value)
  {
    if r.Err? then r else Steps(hash256, widths, r.value, n)
  }

  /** a + b iterations are a iterations followed by b. */
  lemma {:induction false} StepsAdd(hash256: Hasher, widths: seq<nat>, s: Walk, a: nat, b: nat)
    requires Sound(widths, s)
    ensures Steps(hash256, widths, s, a + b) == Then(hash256, widths, Steps(hash256, widths, s, a), b)
    decreases a
  {
    if a > 0 && !Done(s) {
      var r := Step(hash256, widths, s);
      if r.Ok? {
        StepsAdd(hash256, widths, r.value, a - 1, b);
      }
    }
  }

  /** Once failed or finished, further iterations change nothing. */
  lemma Settled(hash256: Hasher, widths: seq<nat>, s: Walk, n: nat, k: nat)
    requires Sound(widths, s) && n <= k
    requires Steps(hash256, widths, s, n).Ok? ==> Done(Steps(hash256, widths, s, n).value)
    ensures Steps(hash256, widths, s, k) == Steps(hash256, widths, s, n)
  {
    StepsAdd(hash256, widths, s, n, k - n);
  }

  /** The recursive traversal of BIP 37 for the node at depth d, index i of
      a pyramid with the given level widths: the node's hash and the unread
      flags and hashes. A leaf, or a node whose flag is 0, takes the next
      hash; otherwise its children are traversed, a missing right child
      standing in for itself. */
  function Extract(hash256: Hasher, widths: seq<nat>, d: nat, i: nat, flags: seq<int>, hashes: seq<Digest>)
    : (r: Result<(Digest, seq<int>, seq<Digest>)>)
    requires d < |widths|
    ensures r.Ok? ==> |r.value.1| < |flags| && |r.value.2| <= |hashes|
    decreases |widths| - d
  {
    if |flags| == 0 then Err(ProofMalformed)
    else if d == |widths| - 1 || flags[0] == 0 then
      if |hashes| == 0 then Err(ProofMalformed) else Ok((hashes[0], flags[1..], hashes[1..]))
    else
      match Extract(hash256, widths, d + 1, 2 * i, flags[1..], hashes)
      case Err(e) => Err(e)
      case Ok((left, flags1, hashes1)) =>
        if 2 * i + 1 < widths[d + 1] then
          match Extract(hash256, widths, d + 1, 2 * i + 1, flags1, hashes1)
          case Err(e) => Err(e)
          case Ok((right, flags2, hashes2)) => Ok((MerkleParent(hash256, left, right), flags2, hashes2))
        else
          Ok((MerkleParent(hash256, left, left), flags1, hashes1))
  }

  predicate AllZero(flags: seq<int>)
  {
    forall k :: 0 <= k < |flags| ==> flags[k] == 0
  }

  /** The outcome `populateTree` promises: the root of the traversal, with
      every hash used and only zero flag bits left over. */
  function Populate(hash256: Hasher, widths: seq<nat>, flags: seq<int>, hashes: seq<Digest>): (r: Result<Digest>)
    requires |widths| >= 1
    ensures r.Ok? <==> (Extract(hash256, widths, 0, 0, flags, hashes).Ok? &&
                        |Extract(hash256, widths, 0, 0, flags, hashes).value.2| == 0 &&
                        AllZero(Extract(hash256, widths, 0, 0, flags, hashes).value.1))
    ensures r.Ok? ==> r.value == Extract(hash256, widths, 0, 0, flags, hashes).value.0
  {
    match Extract(hash256, widths, 0, 0, flags, hashes)
    case Err(_) => Err(ProofMalformed)
    case Ok((root, restFlags, restHashes)) =>
      if |restHashes| != 0 || !AllZero(restFlags) then Err(ProofMalformed) else Ok(root)
  }

  /** The index at depth d of the ancestor of slot (e, j). */
  function Ancestor(e: nat, j: nat, d: nat): nat
    requires d <= e
    decreases e - d
  {
    if e == d then j else Ancestor(e - 1, j / 2, d)
  }

  /** Slot (e, j) lies in the subtree of node (d, i). */
  predicate InSubtree(k: Slot, d: nat, i: nat)
  {
    d <= k.0 && 0 <= k.1 && Ancestor(k.0, k.1, d) == i
  }

  lemma {:induction false} AncestorOfChild(e: nat, j: nat, d: nat)
    requires d < e
    ensures Ancestor(e, j, d) == Ancestor(e, j, d + 1) / 2
    decreases e - d
  {
    if e > d + 1 {
      AncestorOfChild(e - 1, j / 2, d);
    }
  }

  /** Both child subtrees lie in the parent's subtree. */
  lemma ChildSubtrees(d: nat, i: nat)
    ensures forall k :: InSubtree(k, d + 1, 2 * i) ==> InSubtree(k, d, i)
    ensures forall k :: InSubtree(k, d + 1, 2 * i + 1) ==> InSubtree(k, d, i)
  {
    forall k | InSubtree(k, d + 1, 2 * i) || InSubtree(k, d + 1, 2 * i + 1)
      ensures InSubtree(k, d, i)
    {
      AncestorOfChild(k.0, k.1, d);
    }
  }

  /** Every slot of the subtree of (d, i) is unknown. */
  predicate Fresh(known: map<Slot, Digest>, d: nat, i: nat)
  {
    forall k :: k in known ==> !InSubtree(k, d, i)
  }

  /** b differs from a at most inside the subtree of (d, i). */
  predicate AgreeOutside(a: map<Slot, Digest>, b: map<Slot, Digest>, d: nat, i: nat)
  {
    (forall k :: k in a && !InSubtree(k, d, i) ==> k in b && b[k] == a[k]) &&
    (forall k :: k in b && !InSubtree(k, d, i) ==> k in a)
  }

  /** t is where the loop is once node (d, i) of s is done: the node holds
      the extracted hash, the cursor is on its parent, the rest of the flags
      and hashes are unread, and nothing outside the subtree changed. */
  predicate Arrived(s: Walk, t: Walk, d: nat, i: nat, x: (Digest, seq<int>, seq<Digest>))
  {
    AgreeOutside(s.known, t.known, d, i) && (d, i) in t.known && t.known[(d, i)] == x.0 &&
    t.depth == d - 1 && t.index == i / 2 && t.flags == x.1 && t.hashes == x.2
  }

  /** Running n iterations from u finishes node (d, i) of s as `Extract`
      says: the loop fails if the traversal fails, and otherwise arrives. */
  predicate Reaches(hash256: Hasher, widths: seq<nat>, s: Walk, u: Walk, n: nat, d: nat, i: nat)
    requires Sound(widths, u) && d < |widths|
  {
    var x := Extract(hash256, widths, d, i, s.flags, s.hashes);
    var r := Steps(hash256, widths, u, n);
    (x.Err? ==> r.Err?) && (x.Ok? ==> r.Ok? && Arrived(s, r.value, d, i, x.value))
  }

  /** Started on an unknown node whose whole subtree is unknown, the loop
      reaches the node's parent after some n iterations, with the node
      holding the hash `Extract` gives, or it fails exactly when `Extract`
      fails. */
  lemma {:induction false} Visit(hash256: Hasher, widths: seq<nat>, s: Walk, d: nat, i: nat) returns (n: nat)
    requires Sound(widths, s) && !Done(s) && s.depth == d && s.index == i
    requires Fresh(s.known, d, i)
    ensures d < |widths| && Reaches(hash256, widths, s, s, n, d, i)
    decreases |widths| - d, 4
  {
    if |s.flags| == 0 || d == |widths| - 1 || s.flags[0] == 0 {
      n := 1;
      StoreArrives(hash256, widths, s, d, i);
    } else {
      n := VisitInternal(hash256, widths, s, d, i);
    }
  }

  /** `Visit` on an internal node with flag 1: the left child is visited,
      then the rest is `VisitRight`. */
  lemma {:induction false} VisitInternal(hash256: Hasher, widths: seq<nat>, s: Walk, d: nat, i: nat) returns (n: nat)
    requires Sound(widths, s) && !Done(s) && s.depth == d && s.index == i
    requires Fresh(s.known, d, i) && d < |widths| - 1 && |s.flags| > 0 && s.flags[0] != 0
    ensures Reaches(hash256, widths, s, s, n, d, i)
    decreases |widths| - d, 3
  {
    var s1 := DescendLeft(hash256, widths, s, d, i);
    var n1 := Visit(hash256, widths, s1, d + 1, 2 * i);
    n := FinishLeft(hash256, widths, s, d, i, s1, n1);
  }

  /** The left child visited from s1 in n1 iterations: the node fails with
      it, or the rest is `VisitRight`. */
  lemma {:induction false} FinishLeft(hash256: Hasher, widths: seq<nat>, s: Walk, d: nat, i: nat, s1: Walk, n1: nat)
    returns (n: nat)
    requires Sound(widths, s) && !Done(s) && s.depth == d && s.index == i
    requires Fresh(s.known, d, i) && d < |widths| - 1 && |s.flags| > 0 && s.flags[0] != 0
    requires s1 == s.(flags := s.flags[1..], depth := d + 1, index := 2 * i) && Sound(widths, s1)
    requires Steps(hash256, widths, s, 1) == Ok(s1)
    requires Reaches(hash256, widths, s1, s1, n1, d + 1, 2 * i)
    ensures Reaches(hash256, widths, s, s, n, d, i)
    decreases |widths| - d, 2
  {
    var x1 := Extract(hash256, widths, d + 1, 2 * i, s.flags[1..], s.hashes);
    var r1 := Steps(hash256, widths, s1, n1);
    if x1.Err? {
      LeftFailsAfter(hash256, widths, s, d, i, s1, n1);
      n := 1 + n1;
    } else {
      var m := VisitRight(hash256, widths, s, d, i, r1.value, x1.value);
      assert Steps(hash256, widths, s, 1 + n1) == r1 by {
        StepsAdd(hash256, widths, s, 1, n1);
      }
      Compose(hash256, widths, s, s, 1 + n1, r1.value, m, d, i);
      n := 1 + n1 + m;
    }
  }

  /** A failing left child fails the loop and the node. */
  lemma LeftFailsAfter(hash256: Hasher, widths: seq<nat>, s: Walk, d: nat, i: nat, s1: Walk, n1: nat)
    requires Sound(widths, s) && Sound(widths, s1) && d < |widths| - 1 && |s.flags| > 0 && s.flags[0] != 0
    requires Extract(hash256, widths, d + 1, 2 * i, s.flags[1..], s.hashes).Err?
    requires Steps(hash256, widths, s, 1) == Ok(s1) && Steps(hash256, widths, s1, n1).Err?
    ensures Reaches(hash256, widths, s, s, 1 + n1, d, i)
  {
    StepsAdd(hash256, widths, s, 1, n1);
    LeftFails(hash256, widths, s, d, i);
  }

  /** Runs that end in the same outcome reach the same node. */
  lemma Transfer(hash256: Hasher, widths: seq<nat>, s: Walk, v: Walk, k: nat, u: Walk, m: nat, d: nat, i: nat)
    requires Sound(widths, v) && Sound(widths, u) && d < |widths|
    requires Steps(hash256, widths, v, k) == Steps(hash256, widths, u, m)
    requires Reaches(hash256, widths, s, u, m, d, i)
    ensures Reaches(hash256, widths, s, v, k, d, i)
  {
  }

  /** A failing left child makes the node fail. */
  lemma LeftFails(hash256: Hasher, widths: seq<nat>, s: Walk, d: nat, i: nat)
    requires Sound(widths, s) && d < |widths| - 1 && |s.flags| > 0 && s.flags[0] != 0
    requires Extract(hash256, widths, d + 1, 2 * i, s.flags[1..], s.hashes).Err?
    ensures Extract(hash256, widths, d, i, s.flags, s.hashes).Err?
  {
  }

  /** k iterations from v to u, then what `Reaches` promises from u. */
  lemma Compose(hash256: Hasher, widths: seq<nat>, s: Walk, v: Walk, k: nat, u: Walk, m: nat, d: nat, i: nat)
    requires Sound(widths, v) && Sound(widths, u) && d < |widths|
    requires Steps(hash256, widths, v, k) == Ok(u)
    requires Reaches(hash256, widths, s, u, m, d, i)
    ensures Reaches(hash256, widths, s, v, k + m, d, i)
  {
    assert Steps(hash256, widths, v, k + m) == Steps(hash256, widths, u, m) by {
      StepsAdd(hash256, widths, v, k, m);
    }
    Transfer(hash256, widths, s, v, k + m, u, m, d, i);
  }

  /** The one-iteration cases of `Visit`: a leaf, a flag 0, or no flags left. */
  lemma StoreArrives(hash256: Hasher, widths: seq<nat>, s: Walk, d: nat, i: nat)
    requires Sound(widths, s) && !Done(s) && s.depth == d && s.index == i
    requires Fresh(s.known, d, i)
    requires |s.flags| == 0 || d == |widths| - 1 || s.flags[0] == 0
    ensures d < |widths| && Reaches(hash256, widths, s, s, 1, d, i)
  {
    assert InSubtree((d, i), d, i);
    if d < |widths| - 1 {
      ChildSubtrees(d, i);
      AncestorOfChild(d + 1, 2 * i, d);
      assert (d + 1, 2 * i) !in s.known;
    }
    var x := Extract(hash256, widths, d, i, s.flags, s.hashes);
    if x.Ok? {
      var t := Store(s, s.hashes[0]).(flags := s.flags[1..], hashes := s.hashes[1..]);
      assert Step(hash256, widths, s) == Ok(t);
      assert Steps(hash256, widths, s, 1) == Ok(t);
    }
  }

  /** Flag 1 on an unknown internal node: the cursor moves to the left child,
      whose subtree is unknown too. */
  lemma DescendLeft(hash256: Hasher, widths: seq<nat>, s: Walk, d: nat, i: nat) returns (s1: Walk)
    requires Sound(widths, s) && !Done(s) && s.depth == d && s.index == i
    requires Fresh(s.known, d, i) && d < |widths| - 1 && |s.flags| > 0 && s.flags[0] != 0
    ensures s1 == s.(flags := s.flags[1..], depth := d + 1, index := 2 * i)
    ensures Steps(hash256, widths, s, 1) == Ok(s1)
    ensures Sound(widths, s1) && !Done(s1) && Fresh(s1.known, d + 1, 2 * i)
  {
    ChildSubtrees(d, i);
    AncestorOfChild(d + 1, 2 * i, d);
    assert (d + 1, 2 * i) !in s.known;
    s1 := s.(flags := s.flags[1..], depth := d + 1, index := 2 * i);
    assert Step(hash256, widths, s) == Ok(s1);
  }

  /** With the left child known and the right child unknown, the cursor
      moves to the right child. */
  lemma DescendRight(hash256: Hasher, widths: seq<nat>, u: Walk, d: nat, i: nat)
    requires Sound(widths, u) && !Done(u) && u.depth == d && u.index == i && d < |widths| - 1
    requires (d + 1, 2 * i) in u.known && 2 * i + 1 < widths[d + 1] && (d + 1, 2 * i + 1) !in u.known
    ensures Steps(hash256, widths, u, 1) == Ok(u.(depth := d + 1, index := 2 * i + 1))
  {
    assert Step(hash256, widths, u) == Ok(u.(depth := d + 1, index := 2 * i + 1));
  }

  /** With both children known, or the left one known and no right one, the
      node gets the parent hash and the cursor moves up. */
  lemma CombineStep(hash256: Hasher, widths: seq<nat>, u: Walk, d: nat, i: nat, h: Digest)
    requires Sound(widths, u) && !Done(u) && u.depth == d && u.index == i && d < |widths| - 1
    requires (d + 1, 2 * i) in u.known
    requires 2 * i + 1 < widths[d + 1] ==> (d + 1, 2 * i + 1) in u.known
    requires h == MerkleParent(hash256, u.known[(d + 1, 2 * i)],
                               if 2 * i + 1 < widths[d + 1] then u.known[(d + 1, 2 * i + 1)] else u.known[(d + 1, 2 * i)])
    ensures Steps(hash256, widths, u, 1) == Ok(Store(u, h))
  {
    assert Step(hash256, widths, u) == Ok(Store(u, h));
  }

  /** `Extract` on an internal node with flag 1, once its left child is extracted. */
  lemma ExtractInternal(hash256: Hasher, widths: seq<nat>, d: nat, i: nat, flags: seq<int>, hashes: seq<Digest>,
                        x1: (Digest, seq<int>, seq<Digest>))
    requires d < |widths| - 1 && |flags| > 0 && flags[0] != 0
    requires Extract(hash256, widths, d + 1, 2 * i, flags[1..], hashes) == Ok(x1)
    ensures 2 * i + 1 >= widths[d + 1] ==>
      Extract(hash256, widths, d, i, flags, hashes) == Ok((MerkleParent(hash256, x1.0, x1.0), x1.1, x1.2))
    ensures 2 * i + 1 < widths[d + 1] ==>
      var x2 := Extract(hash256, widths, d + 1, 2 * i + 1, x1.1, x1.2);
      Extract(hash256, widths, d, i, flags, hashes) ==
        if x2.Err? then Err(x2.error) else Ok((MerkleParent(hash256, x1.0, x2.value.0), x2.value.1, x2.value.2))
  {
  }

  /** The rest of `Visit` once the left child is done: the right child, if
      any, is visited, then the node is combined. */
  lemma {:induction false} VisitRight(hash256: Hasher, widths: seq<nat>, s: Walk, d: nat, i: nat, s2: Walk,
                                      x1: (Digest, seq<int>, seq<Digest>))
    returns (n: nat)
    requires Sound(widths, s) && !Done(s) && s.depth == d && s.index == i
    requires Fresh(s.known, d, i) && d < |widths| - 1 && |s.flags| > 0 && s.flags[0] != 0
    requires Extract(hash256, widths, d + 1, 2 * i, s.flags[1..], s.hashes) == Ok(x1)
    requires Sound(widths, s2) && Arrived(s, s2, d + 1, 2 * i, x1)
    ensures Reaches(hash256, widths, s, s2, n, d, i)
    decreases |widths| - d, 1
  {
    if 2 * i + 1 < widths[d + 1] {
      n := VisitBoth(hash256, widths, s, d, i, s2, x1);
    } else {
      NoRight(hash256, widths, s, d, i, s2, x1);
      n := 1;
    }
  }

  /** No right child: the left hash is paired with itself. */
  lemma NoRight(hash256: Hasher, widths: seq<nat>, s: Walk, d: nat, i: nat, s2: Walk,
                x1: (Digest, seq<int>, seq<Digest>))
    requires Sound(widths, s) && !Done(s) && s.depth == d && s.index == i
    requires Fresh(s.known, d, i) && d < |widths| - 1 && |s.flags| > 0 && s.flags[0] != 0
    requires Extract(hash256, widths, d + 1, 2 * i, s.flags[1..], s.hashes) == Ok(x1)
    requires Sound(widths, s2) && Arrived(s, s2, d + 1, 2 * i, x1)
    requires 2 * i + 1 >= widths[d + 1]
    ensures Reaches(hash256, widths, s, s2, 1, d, i)
  {
    ChildSubtrees(d, i);
    ExtractInternal(hash256, widths, d, i, s.flags, s.hashes, x1);
    assert !Done(s2) by {
      assert !InSubtree((0, 0), d + 1, 2 * i);
    }
    var h := MerkleParent(hash256, x1.0, x1.0);
    CombineStep(hash256, widths, s2, d, i, h);
    AgreeOutsideLeft(s.known, s2.known, d, i, h);
  }

  /** A right child exists: it is visited, then the node is combined. */
  lemma {:induction false} VisitBoth(hash256: Hasher, widths: seq<nat>, s: Walk, d: nat, i: nat, s2: Walk,
                                     x1: (Digest, seq<int>, seq<Digest>))
    returns (n: nat)
    requires Sound(widths, s) && !Done(s) && s.depth == d && s.index == i
    requires Fresh(s.known, d, i) && d < |widths| - 1 && |s.flags| > 0 && s.flags[0] != 0
    requires Extract(hash256, widths, d + 1, 2 * i, s.flags[1..], s.hashes) == Ok(x1)
    requires Sound(widths, s2) && Arrived(s, s2, d + 1, 2 * i, x1)
    requires 2 * i + 1 < widths[d + 1]
    ensures Reaches(hash256, widths, s, s2, n, d, i)
    decreases |widths| - d, 0
  {
    var s3 := StartRight(hash256, widths, s, d, i, s2, x1);
    var n2 := Visit(hash256, widths, s3, d + 1, 2 * i + 1);
    n := FinishRight(hash256, widths, s, d, i, s2, x1, s3, n2);
  }

  /** The right child visited from s3 in n2 iterations: one more iteration
      combines the node, unless the right child failed. */
  lemma FinishRight(hash256: Hasher, widths: seq<nat>, s: Walk, d: nat, i: nat, s2: Walk,
                    x1: (Digest, seq<int>, seq<Digest>), s3: Walk, n2: nat)
    returns (n: nat)
    requires Sound(widths, s) && !Done(s) && s.depth == d && s.index == i
    requires Fresh(s.known, d, i) && d < |widths| - 1 && |s.flags| > 0 && s.flags[0] != 0
    requires Extract(hash256, widths, d + 1, 2 * i, s.flags[1..], s.hashes) == Ok(x1)
    requires Sound(widths, s2) && Arrived(s, s2, d + 1, 2 * i, x1)
    requires 2 * i + 1 < widths[d + 1]
    requires s3 == s2.(depth := d + 1, index := 2 * i + 1) && Sound(widths, s3) && !Done(s3)
    requires Steps(hash256, widths, s2, 1) == Ok(s3)
    requires Reaches(hash256, widths, s3, s3, n2, d + 1, 2 * i + 1)
    ensures Reaches(hash256, widths, s, s2, n, d, i)
  {
    var x2 := Extract(hash256, widths, d + 1, 2 * i + 1, x1.1, x1.2);
    var r3 := Steps(hash256, widths, s3, n2);
    assert s3.flags == x1.1 && s3.hashes == x1.2;
    if x2.Err? {
      RightFails(hash256, widths, s, d, i, s2, x1, s3, n2);
      n := 1 + n2;
    } else {
      RightDone(hash256, widths, s, d, i, s2, x1, s3, n2, r3.value, x2.value);
      n := 1 + n2 + 1;
    }
  }

  /** The right child fails, and so does the node. */
  lemma RightFails(hash256: Hasher, widths: seq<nat>, s: Walk, d: nat, i: nat, s2: Walk,
                   x1: (Digest, seq<int>, seq<Digest>), s3: Walk, n2: nat)
    requires Sound(widths, s) && Sound(widths, s2) && Sound(widths, s3)
    requires d < |widths| - 1 && 2 * i + 1 < widths[d + 1] && |s.flags| > 0 && s.flags[0] != 0
    requires Extract(hash256, widths, d + 1, 2 * i, s.flags[1..], s.hashes) == Ok(x1)
    requires Extract(hash256, widths, d + 1, 2 * i + 1, x1.1, x1.2).Err?
    requires Steps(hash256, widths, s2, 1) == Ok(s3) && Steps(hash256, widths, s3, n2).Err?
    ensures Reaches(hash256, widths, s, s2, 1 + n2, d, i)
  {
    StepsAdd(hash256, widths, s2, 1, n2);
    ChildFails(hash256, widths, s, s2, 1 + n2, d, i, x1);
  }

  /** The right child arrives in s4, and one more iteration combines the node. */
  lemma RightDone(hash256: Hasher, widths: seq<nat>, s: Walk, d: nat, i: nat, s2: Walk,
                  x1: (Digest, seq<int>, seq<Digest>), s3: Walk, n2: nat, s4: Walk, x2: (Digest, seq<int>, seq<Digest>))
    requires Sound(widths, s) && Fresh(s.known, d, i) && d < |widths| - 1 && 2 * i + 1 < widths[d + 1]
    requires |s.flags| > 0 && s.flags[0] != 0
    requires Extract(hash256, widths, d + 1, 2 * i, s.flags[1..], s.hashes) == Ok(x1)
    requires Extract(hash256, widths, d + 1, 2 * i + 1, x1.1, x1.2) == Ok(x2)
    requires Sound(widths, s2) && Arrived(s, s2, d + 1, 2 * i, x1) && !Done(s2)
    requires s3 == s2.(depth := d + 1, index := 2 * i + 1) && Sound(widths, s3)
    requires Steps(hash256, widths, s2, 1) == Ok(s3) && Steps(hash256, widths, s3, n2) == Ok(s4)
    requires Sound(widths, s4) && Arrived(s3, s4, d + 1, 2 * i + 1, x2)
    ensures Reaches(hash256, widths, s, s2, 1 + n2 + 1, d, i)
  {
    StepsAdd(hash256, widths, s2, 1, n2);
    CombineBoth(hash256, widths, s, d, i, s2, x1, s4, x2);
    Compose(hash256, widths, s, s2, 1 + n2, s4, 1, d, i);
  }

  /** Once the left child is done, the cursor moves to the right child,
      whose subtree is unknown. */
  lemma StartRight(hash256: Hasher, widths: seq<nat>, s: Walk, d: nat, i: nat, s2: Walk,
                   x1: (Digest, seq<int>, seq<Digest>))
    returns (s3: Walk)
    requires Sound(widths, s) && !Done(s) && s.depth == d && s.index == i
    requires Fresh(s.known, d, i) && d < |widths| - 1
    requires Sound(widths, s2) && Arrived(s, s2, d + 1, 2 * i, x1)
    requires 2 * i + 1 < widths[d + 1]
    ensures s3 == s2.(depth := d + 1, index := 2 * i + 1)
    ensures Sound(widths, s3) && !Done(s3) && Fresh(s3.known, d + 1, 2 * i + 1)
    ensures Steps(hash256, widths, s2, 1) == Ok(s3)
  {
    s3 := s2.(depth := d + 1, index := 2 * i + 1);
    ChildSubtrees(d, i);
    assert !Done(s2) by {
      assert !InSubtree((0, 0), d + 1, 2 * i);
    }
    var right := (d + 1, 2 * i + 1);
    assert right !in s2.known by {
      AncestorOfChild(d + 1, 2 * i + 1, d);
      assert InSubtree(right, d, i) && !InSubtree(right, d + 1, 2 * i);
    }
    DescendRight(hash256, widths, s2, d, i);
  }

  /** A failing right child makes the node fail. */
  lemma ChildFails(hash256: Hasher, widths: seq<nat>, s: Walk, v: Walk, k: nat, d: nat, i: nat,
                   x1: (Digest, seq<int>, seq<Digest>))
    requires Sound(widths, s) && Sound(widths, v) && d < |widths| - 1 && 2 * i + 1 < widths[d + 1]
    requires |s.flags| > 0 && s.flags[0] != 0
    requires Extract(hash256, widths, d + 1, 2 * i, s.flags[1..], s.hashes) == Ok(x1)
    requires Extract(hash256, widths, d + 1, 2 * i + 1, x1.1, x1.2).Err?
    requires Steps(hash256, widths, v, k).Err?
    ensures Reaches(hash256, widths, s, v, k, d, i)
  {
    ExtractInternal(hash256, widths, d, i, s.flags, s.hashes, x1);
  }

  /** Both children done: one more iteration stores their parent. */
  lemma CombineBoth(hash256: Hasher, widths: seq<nat>, s: Walk, d: nat, i: nat, s2: Walk,
                    x1: (Digest, seq<int>, seq<Digest>), s4: Walk, x2: (Digest, seq<int>, seq<Digest>))
    requires Sound(widths, s) && Fresh(s.known, d, i) && d < |widths| - 1 && 2 * i + 1 < widths[d + 1]
    requires |s.flags| > 0 && s.flags[0] != 0
    requires Extract(hash256, widths, d + 1, 2 * i, s.flags[1..], s.hashes) == Ok(x1)
    requires Extract(hash256, widths, d + 1, 2 * i + 1, x1.1, x1.2) == Ok(x2)
    requires Arrived(s, s2, d + 1, 2 * i, x1) && !Done(s2)
    requires Sound(widths, s4) && Arrived(s2.(depth := d + 1, index := 2 * i + 1), s4, d + 1, 2 * i + 1, x2)
    ensures Reaches(hash256, widths, s, s4, 1, d, i)
  {
    ChildSubtrees(d, i);
    ExtractInternal(hash256, widths, d, i, s.flags, s.hashes, x1);
    var left := (d + 1, 2 * i);
    assert left in s4.known && s4.known[left] == x1.0 by {
      assert !InSubtree(left, d + 1, 2 * i + 1);
    }
    assert !Done(s4) by {
      assert !InSubtree((0, 0), d + 1, 2 * i + 1);
    }
    var h := MerkleParent(hash256, x1.0, x2.0);
    CombineStep(hash256, widths, s4, d, i, h);
    AgreeOutsideBoth(s.known, s2.known, s4.known, d, i, h);
  }

  lemma AgreeOutsideLeft(a: map<Slot, Digest>, b: map<Slot, Digest>, d: nat, i: nat, h: Digest)
    requires AgreeOutside(a, b, d + 1, 2 * i)
    ensures AgreeOutside(a, b[(d, i) := h], d, i)
  {
    ChildSubtrees(d, i);
    assert InSubtree((d, i), d, i);
  }

  lemma AgreeOutsideBoth(a: map<Slot, Digest>, b: map<Slot, Digest>, c: map<Slot, Digest>, d: nat, i: nat, h: Digest)
    requires AgreeOutside(a, b, d + 1, 2 * i) && AgreeOutside(b, c, d + 1, 2 * i + 1)
    ensures AgreeOutside(a, c[(d, i) := h], d, i)
  {
    ChildSubtrees(d, i);
    assert InSubtree((d, i), d, i);
  }

  /** The widths of the levels of a tree over `total` leaves and `maxDepth`
      levels below the root: level d holds ceil(total / 2^(maxDepth - d)) slots. */
  function LevelWidths(total: nat, maxDepth: nat): (r: seq<nat>)
    ensures |r| == maxDepth + 1
    ensures forall d :: 0 <= d <= maxDepth ==> r[d] == CeilDiv(total, Pow2(maxDepth - d))
  {
    seq(maxDepth + 1, d requires 0 <= d <= maxDepth => CeilDiv(total, Pow2(maxDepth - d)))
  }

  /** ceil(t / p) is the c with (c - 1)·p < t <= c·p. */
  lemma CeilDivIs(t: nat, p: nat, c: nat)
    requires p >= 1 && c >= 1 && (c - 1) * p < t <= c * p
    ensures CeilDiv(t, p) == c
  {
    assert c * p == (c - 1) * p + p;
    DivModUnique(t + p - 1, p, c, t + p - 1 - c * p);
  }

  /** ceil(t / p) is the number of blocks of p that just cover t. */
  lemma CeilDivBounds(t: nat, p: nat)
    requires t >= 1 && p >= 1
    ensures CeilDiv(t, p) >= 1
    ensures (CeilDiv(t, p) - 1) * p < t <= CeilDiv(t, p) * p
  {
    var c, q := CeilDiv(t, p), (t + p - 1) % p;
    assert t + p - 1 == c * p + q;
    MulShift(c, p);
  }

  lemma MulShift(a: int, p: int)
    ensures (a - 1) * p == a * p - p
    ensures (a - 2) * p == a * p - 2 * p
    ensures a * (2 * p) == (2 * a) * p
  {
  }

  /** Halving a level rounds up: ceil(t / 2p) == ceil(ceil(t / p) / 2). */
  lemma CeilDivHalf(t: nat, p: nat)
    requires t >= 1 && p >= 1
    ensures CeilDiv(t, 2 * p) == (CeilDiv(t, p) + 1) / 2
  {
    var c := CeilDiv(t, p);
    CeilDivBounds(t, p);
    MulShift(c, p);
    var h := (c + 1) / 2;
    MulShift(h, 2 * p);
    MulShift(h, p);
    if c % 2 == 0 {
      assert c == 2 * h;
    } else {
      assert c == 2 * h - 1;
      MulShift(c + 1, p);
    }
    CeilDivIs(t, 2 * p, h);
  }

  /** The level widths of `total` >= 1 leaves and ceil(log2 total) levels
      form a pyramid whose bottom level holds exactly the leaves. */
  lemma LevelWidthsPyramid(total: nat)
    requires total >= 1
    ensures Pyramid(LevelWidths(total, CeilLog2(total)))
    ensures LevelWidths(total, CeilLog2(total))[CeilLog2(total)] == total
  {
    var m := CeilLog2(total);
    var w := LevelWidths(total, m);
    CeilDivIs(total, Pow2(m), 1);
    CeilDivIs(total, 1, total);
    forall d | 0 <= d < |w| - 1
      ensures w[d + 1] <= 2 * w[d] <= w[d + 1] + 1
    {
      CeilDivHalf(total, Pow2(m - d - 1));
    }
  }

  /** After n iterations from s0 the loop has failed exactly when the
      traversal of the root fails, and has otherwise finished with the root
      holding the traversal's hash and the traversal's leftovers unread. */
  predicate Bounded(hash256: Hasher, widths: seq<nat>, s0: Walk, n: nat)
    requires Sound(widths, s0)
  {
    var x := Extract(hash256, widths, 0, 0, s0.flags, s0.hashes);
    var r := Steps(hash256, widths, s0, n);
    (r.Err? <==> x.Err?) &&
    (r.Ok? ==> Done(r.value) && x.value == (r.value.known[(0, 0)], r.value.flags, r.value.hashes))
  }

  /** From a tree with every slot unknown and the cursor on the root, the
      loop ends within some number of iterations. */
  lemma Terminates(hash256: Hasher, widths: seq<nat>, s0: Walk) returns (n: nat)
    requires Sound(widths, s0) && s0.known == map[] && s0.depth == 0 && s0.index == 0
    ensures Bounded(hash256, widths, s0, n)
  {
    n := Visit(hash256, widths, s0, 0, 0);
    assert Reaches(hash256, widths, s0, s0, n, 0, 0);
  }

  /** No hash runs out and no flag bit is missing: n iterations from s0
      reach the root or fail, so a state reached in k iterations whose root
      is unknown has k < n. */
  lemma NotYet(hash256: Hasher, widths: seq<nat>, s0: Walk, n: nat, k: nat, t: Walk)
    requires Sound(widths, s0) && Bounded(hash256, widths, s0, n)
    requires k <= n && Steps(hash256, widths, s0, k) == Ok(t) && !Done(t)
    ensures k < n
  {
  }

  /** The iteration from t pops from an exhausted flag or hash list: a leaf
      or an unknown node needs a flag, and a leaf or an unknown node with
      flag 0 needs a hash. */
  predicate Stuck(widths: seq<nat>, t: Walk)
    requires Sound(widths, t) && !Done(t)
  {
    var open := t.depth == |widths| - 1 || (t.depth + 1, 2 * t.index) !in t.known;
    (open && |t.flags| == 0) ||
    (open && |t.flags| > 0 && (t.depth == |widths| - 1 || t.flags[0] == 0) && |t.hashes| == 0)
  }

  /** A stuck iteration fails the whole population. */
  lemma FailsAt(hash256: Hasher, widths: seq<nat>, s0: Walk, n: nat, k: nat, t: Walk)
    requires Sound(widths, s0) && Bounded(hash256, widths, s0, n)
    requires k < n && Steps(hash256, widths, s0, k) == Ok(t) && !Done(t) && Stuck(widths, t)
    ensures Populate(hash256, widths, s0.flags, s0.hashes) == Err(ProofMalformed)
  {
    assert Step(hash256, widths, t).Err?;
    StepsAdd(hash256, widths, s0, k, 1);
    Settled(hash256, widths, s0, k + 1, n);
  }

  /** A state with the root known, reached in k iterations, holds what
      `Extract` gives for the root. */
  lemma Finishes(hash256: Hasher, widths: seq<nat>, s0: Walk, n: nat, k: nat, t: Walk)
    requires Sound(widths, s0) && Bounded(hash256, widths, s0, n)
    requires k <= n && Steps(hash256, widths, s0, k) == Ok(t) && Done(t)
    ensures Extract(hash256, widths, 0, 0, s0.flags, s0.hashes) == Ok((t.known[(0, 0)], t.flags, t.hashes))
  {
    Settled(hash256, widths, s0, k, n);
  }

  /** One more iteration after k: Step from t, the state after k. */
  lemma Next(hash256: Hasher, widths: seq<nat>, s0: Walk, k: nat, t: Walk, next: Walk)
    requires Sound(widths, s0) && Steps(hash256, widths, s0, k) == Ok(t) && !Done(t)
    requires Steps(hash256, widths, t, 1) == Ok(next)
    ensures Steps(hash256, widths, s0, k + 1) == Ok(next)
  {
    StepsAdd(hash256, widths, s0, k, 1);
  }

  /** A leaf, or an unknown node with flag 0: the node takes the next hash
      and the cursor moves up. */
  lemma StoreNext(hash256: Hasher, widths: seq<nat>, s0: Walk, k: nat, t: Walk) returns (next: Walk)
    requires Sound(widths, s0) && Steps(hash256, widths, s0, k) == Ok(t) && !Done(t)
    requires |t.flags| > 0 && |t.hashes| > 0
    requires t.depth == |widths| - 1 || ((t.depth + 1, 2 * t.index) !in t.known && t.flags[0] == 0)
    ensures next == Store(t, t.hashes[0]).(flags := t.flags[1..], hashes := t.hashes[1..])
    ensures Steps(hash256, widths, s0, k + 1) == Ok(next)
  {
    next := Store(t, t.hashes[0]).(flags := t.flags[1..], hashes := t.hashes[1..]);
    assert Step(hash256, widths, t) == Ok(next);
    Next(hash256, widths, s0, k, t, next);
  }

  /** An unknown internal node with flag 1: the cursor moves to the left child. */
  lemma LeftNext(hash256: Hasher, widths: seq<nat>, s0: Walk, k: nat, t: Walk) returns (next: Walk)
    requires Sound(widths, s0) && Steps(hash256, widths, s0, k) == Ok(t) && !Done(t)
    requires t.depth < |widths| - 1 && |t.flags| > 0 && t.flags[0] != 0
    requires (t.depth + 1, 2 * t.index) !in t.known
    ensures next == t.(flags := t.flags[1..], depth := t.depth + 1, index := 2 * t.index)
    ensures Steps(hash256, widths, s0, k + 1) == Ok(next)
  {
    next := t.(flags := t.flags[1..], depth := t.depth + 1, index := 2 * t.index);
    assert Step(hash256, widths, t) == Ok(next);
    Next(hash256, widths, s0, k, t, next);
  }

  /** Left child known, right child a slot but unknown: the cursor moves to it. */
  lemma RightNext(hash256: Hasher, widths: seq<nat>, s0: Walk, k: nat, t: Walk) returns (next: Walk)
    requires Sound(widths, s0) && Steps(hash256, widths, s0, k) == Ok(t) && !Done(t)
    requires t.depth < |widths| - 1 && (t.depth + 1, 2 * t.index) in t.known
    requires 2 * t.index + 1 < widths[t.depth + 1] && (t.depth + 1, 2 * t.index + 1) !in t.known
    ensures next == t.(depth := t.depth + 1, index := 2 * t.index + 1)
    ensures Steps(hash256, widths, s0, k + 1) == Ok(next)
  {
    next := t.(depth := t.depth + 1, index := 2 * t.index + 1);
    DescendRight(hash256, widths, t, t.depth, t.index);
    Next(hash256, widths, s0, k, t, next);
  }

  /** Both children known: the node gets their parent hash and the cursor
      moves up. */
  lemma CombineNext(hash256: Hasher, widths: seq<nat>, s0: Walk, k: nat, t: Walk, h: Digest) returns (next: Walk)
    requires Sound(widths, s0) && Steps(hash256, widths, s0, k) == Ok(t) && !Done(t)
    requires t.depth < |widths| - 1 && 2 * t.index + 1 < widths[t.depth + 1]
    requires (t.depth + 1, 2 * t.index) in t.known && (t.depth + 1, 2 * t.index + 1) in t.known
    requires h == MerkleParent(hash256, t.known[(t.depth + 1, 2 * t.index)], t.known[(t.depth + 1, 2 * t.index + 1)])
    ensures next == Store(t, h)
    ensures Steps(hash256, widths, s0, k + 1) == Ok(next)
  {
    next := Store(t, h);
    CombineStep(hash256, widths, t, t.depth, t.index, h);
    Next(hash256, widths, s0, k, t, next);
  }

  /** Left child known and no right slot: the node gets the parent of the
      left hash with itself and the cursor moves up. */
  lemma DoubleNext(hash256: Hasher, widths: seq<nat>, s0: Walk, k: nat, t: Walk, h: Digest) returns (next: Walk)
    requires Sound(widths, s0) && Steps(hash256, widths, s0, k) == Ok(t) && !Done(t)
    requires t.depth < |widths| - 1 && 2 * t.index + 1 >= widths[t.depth + 1]
    requires (t.depth + 1, 2 * t.index) in t.known
    requires h == MerkleParent(hash256, t.known[(t.depth + 1, 2 * t.index)], t.known[(t.depth + 1, 2 * t.index)])
    ensures next == Store(t, h)
    ensures Steps(hash256, widths, s0, k + 1) == Ok(next)
  {
    next := Store(t, h);
    CombineStep(hash256, widths, t, t.depth, t.index, h);
    Next(hash256, widths, s0, k, t, next);
  }

  /** The level-building loop of `NewMerkleTree`. */
  method ComputeWidths(total: nat, maxDepth: nat) returns (w: seq<nat>)
    ensures w == LevelWidths(total, maxDepth)
  {
    w := [];
    var depth := 0;
    while depth < maxDepth + 1
      invariant 0 <= depth <= maxDepth + 1 && |w| == depth
      invariant forall e :: 0 <= e < depth ==> w[e] == CeilDiv(total, Pow2(maxDepth - e))
    {
      w := w + [CeilDiv(total, Pow2(maxDepth - depth))];
      depth := depth + 1;
    }
  }

  /** `MerkleTree`: the slots of the partial tree and the cursor. A slot
      absent from `nodes` is one the source leaves empty. */
  class MerkleTree {
    const total: nat
    const maxDepth: nat
    /** The number of slots of each level, root level first. */
    const widths: seq<nat>
    var nodes: map<Slot, Digest>
    var currentDepth: int
    var currentIndex: int

    /** One slot at the top, one level per depth, each level half the one below. */
    predicate Valid()
    {
      |widths| == maxDepth + 1 && Pyramid(widths)
    }

    /** `NewMerkleTree`: every slot empty, the cursor on the root. */
    constructor (total: nat)
      requires total >= 1
      ensures Valid() && this.total == total && maxDepth == CeilLog2(total)
      ensures widths == LevelWidths(total, maxDepth) && widths[maxDepth] == total
      ensures nodes == map[] && currentDepth == 0 && currentIndex == 0
    {
      var m := CeilLog2(total);
      var w := ComputeWidths(total, m);
      LevelWidthsPyramid(total);
      this.total := total;
      maxDepth := m;
      widths := w;
      nodes := map[];
      currentDepth := 0;
      currentIndex := 0;
    }

    /** The abstract state of the walk with the given unread flags and hashes. */
    function State(flags: seq<int>, hashes: seq<Digest>): Walk
      reads this
    {
      Walk(nodes, currentDepth, currentIndex, flags, hashes)
    }

    /** `up`: the cursor moves to the parent; `left` and `right` undo it. */
    method Up()
      modifies this
      ensures currentDepth == old(currentDepth) - 1 && currentIndex == old(currentIndex) / 2
      ensures nodes == old(nodes)
    {
      currentDepth := currentDepth - 1;
      currentIndex := currentIndex / 2;
    }

    /** `left`: the cursor moves to the left child, whose parent is where it was. */
    method Left()
      modifies this
      ensures currentDepth == old(currentDepth) + 1 && currentIndex == 2 * old(currentIndex)
      ensures currentDepth - 1 == old(currentDepth) && currentIndex / 2 == old(currentIndex)
      ensures nodes == old(nodes)
    {
      currentDepth := currentDepth + 1;
      currentIndex := currentIndex * 2;
    }

    /** `right`: the cursor moves to the right child, whose parent is where it was. */
    method Right()
      modifies this
      ensures currentDepth == old(currentDepth) + 1 && currentIndex == 2 * old(currentIndex) + 1
      ensures currentDepth - 1 == old(currentDepth) && currentIndex / 2 == old(currentIndex)
      ensures nodes == old(nodes)
    {
      currentDepth := currentDepth + 1;
      currentIndex := currentIndex * 2 + 1;
    }

    /** `root`: the hash of the root slot, if known. */
    function Root(): (r: Option<Digest>)
      reads this
      ensures r.Some? <==> (0, 0) in nodes
      ensures r.Some? ==> r.value == nodes[(0, 0)]
    {
      if (0, 0) in nodes then Some(nodes[(0, 0)]) else None
    }

    /** `getLeftNode`: the hash of the cursor's left child, if known. */
    function GetLeftNode(): (r: Option<Digest>)
      reads this
      ensures r.Some? <==> (currentDepth + 1, 2 * currentIndex) in nodes
      ensures r.Some? ==> r.value == nodes[(currentDepth + 1, 2 * currentIndex)]
    {
      var k := (currentDepth + 1, 2 * currentIndex);
      if k in nodes then Some(nodes[k]) else None
    }

    /** `getRightNode`: the hash of the cursor's right child, if known. */
    function GetRightNode(): (r: Option<Digest>)
      reads this
      ensures r.Some? <==> (currentDepth + 1, 2 * currentIndex + 1) in nodes
      ensures r.Some? ==> r.value == nodes[(currentDepth + 1, 2 * currentIndex + 1)]
    {
      var k := (currentDepth + 1, 2 * currentIndex + 1);
      if k in nodes then Some(nodes[k]) else None
    }

    /** `getCurrentNode`: the hash of the cursor's slot, if known. */
    function GetCurrentNode(): (r: Option<Digest>)
      reads this
      ensures r.Some? <==> (currentDepth, currentIndex) in nodes
      ensures r.Some? ==> r.value == nodes[(currentDepth, currentIndex)]
    {
      var k := (currentDepth, currentIndex);
      if k in nodes then Some(nodes[k]) else None
    }

    /** `setCurrentNode`: the cursor's slot gets the hash; nothing else changes. */
    method SetCurrentNode(h: Digest)
      modifies this
      ensures nodes == old(nodes)[(currentDepth, currentIndex) := h]
      ensures currentDepth == old(currentDepth) && currentIndex == old(currentIndex)
    {
      nodes := nodes[(currentDepth, currentIndex) := h];
    }

    /** `isLeaf`: the cursor is on the bottom level. */
    predicate IsLeaf()
      reads this
    {
      currentDepth == maxDepth
    }

    /** `rightExists`: the level below has a slot for a right child. */
    predicate RightExists()
      requires Valid() && 0 <= currentDepth < maxDepth
      reads this
    {
      2 * currentIndex + 1 < widths[currentDepth + 1]
    }

    /** One iteration of `populateTree`'s loop on the state reached after k
        iterations from s0: it fails, changing nothing, when it would pop
        from an exhausted list, and otherwise leaves the state of iteration
        k + 1. */
    method Iterate(hash256: Hasher, ghost s0: Walk, ghost k: nat, flags: seq<int>, hs: seq<Digest>)
      returns (ok: bool, flags': seq<int>, hs': seq<Digest>)
      requires Valid() && Sound(widths, s0) && Steps(hash256, widths, s0, k) == Ok(State(flags, hs))
      requires !Done(State(flags, hs))
      modifies this
      ensures !ok ==> Stuck(widths, old(State(flags, hs)))
      ensures ok ==> Steps(hash256, widths, s0, k + 1) == Ok(State(flags', hs'))
    {
      ghost var t := State(flags, hs);
      flags', hs' := flags, hs;
      ghost var next: Walk;
      if IsLeaf() {
        if |flags'| == 0 || |hs'| == 0 {
          return false, flags', hs';
        }
        next := StoreNext(hash256, widths, s0, k, t);
        flags' := flags'[1..];
        var h := hs'[0];
        hs' := hs'[1..];
        SetCurrentNode(h);
        Up();
      } else {
        var leftHash := GetLeftNode();
        if leftHash.None? {
          if |flags'| == 0 || (flags'[0] == 0 && |hs'| == 0) {
            return false, flags', hs';
          }
          var flag := flags'[0];
          flags' := flags'[1..];
          if flag == 0 {
            next := StoreNext(hash256, widths, s0, k, t);
            var h := hs'[0];
            hs' := hs'[1..];
            SetCurrentNode(h);
            Up();
          } else {
            next := LeftNext(hash256, widths, s0, k, t);
            Left();
          }
        } else if RightExists() {
          var rightHash := GetRightNode();
          if rightHash.None? {
            next := RightNext(hash256, widths, s0, k, t);
            Right();
          } else {
            var h := MerkleParent(hash256, leftHash.value, rightHash.value);
            next := CombineNext(hash256, widths, s0, k, t, h);
            SetCurrentNode(h);
            Up();
          }
        } else {
          var h := MerkleParent(hash256, leftHash.value, leftHash.value);
          next := DoubleNext(hash256, widths, s0, k, t, h);
          SetCurrentNode(h);
          Up();
        }
      }
      ok := true;
      assert next == State(flags', hs');
    }

    /** `populateTree`: runs the walk until the root is known, then requires
        every hash used and every flag bit left over to be 0. Popping from
        an exhausted flag or hash list, and any leftover, fail with
        ProofMalformed; the result is exactly `Populate`. */
    method PopulateTree(hash256: Hasher, flagBits: seq<int>, hashes: seq<Digest>) returns (r: Result<Digest>)
      requires Valid() && nodes == map[] && currentDepth == 0 && currentIndex == 0
      modifies this
      ensures r == Populate(hash256, widths, flagBits, hashes)
      ensures r.Ok? ==> Root() == Some(r.value)
    {
      ghost var s0 := State(flagBits, hashes);
      ghost var n := Terminates(hash256, widths, s0);
      var flags, hs := flagBits, hashes;
      ghost var k := 0;
      while Root().None?
        invariant k <= n && Steps(hash256, widths, s0, k) == Ok(State(flags, hs))
        decreases n - k
      {
        ghost var t := State(flags, hs);
        NotYet(hash256, widths, s0, n, k, t);
        var ok;
        ok, flags, hs := Iterate(hash256, s0, k, flags, hs);
        if !ok {
          FailsAt(hash256, widths, s0, n, k, t);
          return Err(ProofMalformed);
        }
        k := k + 1;
      }
      Finishes(hash256, widths, s0, n, k, State(flags, hs));
      if |hs| != 0 {
        return Err(ProofMalformed);
      }
      for j := 0 to |flags|
        invariant forall m :: 0 <= m < j ==> flags[m] == 0
      {
        if flags[j] != 0 {
          return Err(ProofMalformed);
        }
      }
      return Ok(nodes[(0, 0)]);
    }
  }
}
