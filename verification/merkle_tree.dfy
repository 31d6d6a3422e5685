/**
 The reference definition of merkleization: the root of a balanced binary tree whose first
 `count` leaves are given and whose other leaves are zero.  The chunk type is a
 parameter and `combi` is an arbitrary function, so nothing here depends on a hash.
 */
module MerkleTree {
  import opened Bits

  datatype PaddedTree<!C(!new)> = PaddedTree(combi: (C, C) -> C, zero: C, leaf: nat -> C, count: nat)
  {
    /** the root of a tree of `2^d` zero leaves */
    function Zero(d: nat): C {
      if d == 0 then zero else combi(Zero(d - 1), Zero(d - 1))
    }

    /** the node `k`, counted from the left, at height `d` above the leaves */
    function Node(d: nat, k: nat): C
      decreases d
    {
      if d == 0 then
        if k < count then leaf(k) else zero
      else
        combi(Node(d - 1, 2 * k), Node(d - 1, 2 * k + 1))
    }

    /** the root of the leaves padded with zeroes to the virtual size of `limit` leaves */
    function Root(limit: nat): C {
      Node(CeilLog2(limit), 0)
    }

    // ----- the same root, from the top down

    /** leaf `i`, or the zero that it is padded with */
    function LeafOrZero(i: nat): C {
      if i < count then leaf(i) else zero
    }

    /** all leaves of a tree of depth `d`, from left to right */
    function PaddedLeaves(d: nat): (s: seq<C>)
      ensures |s| == Pow2(d) && forall i :: 0 <= i < |s| ==> s[i] == LeafOrZero(i)
    {
      seq(Pow2(d), i requires 0 <= i => LeafOrZero(i))
    }

    /** the root of the balanced tree over the `2^d` leaves `s`: its left half hashed with its right half */
    function Balanced(s: seq<C>, d: nat): C
      requires |s| == Pow2(d)
      decreases d
    {
      if d == 0 then s[0] else combi(Balanced(s[..|s| / 2], d - 1), Balanced(s[|s| / 2..], d - 1))
    }

    /** The leaves in `s` start with number `from`. */
    ghost predicate AreLeaves(s: seq<C>, from: nat) {
      forall i :: 0 <= i < |s| ==> s[i] == LeafOrZero(from + i)
    }

    lemma HalvesAreLeaves(s: seq<C>, from: nat)
      requires AreLeaves(s, from)
      ensures AreLeaves(s[..|s| / 2], from) && AreLeaves(s[|s| / 2..], from + |s| / 2)
    {
    }

    lemma BlockHalves(k: nat, d: nat)
      requires d > 0
      ensures Pow2(d) / 2 == Pow2(d - 1)
      ensures (2 * k) * Pow2(d - 1) == k * Pow2(d) && (2 * k + 1) * Pow2(d - 1) == k * Pow2(d) + Pow2(d - 1)
    {
    }

    lemma {:induction false} NodeIsBalanced(d: nat, k: nat, from: nat, s: seq<C>)
      requires |s| == Pow2(d) && from == k * Pow2(d) && AreLeaves(s, from)
      ensures Node(d, k) == Balanced(s, d)
      decreases d
    {
      if d > 0 {
        HalvesAreLeaves(s, from);
        BlockHalves(k, d);
        NodeIsBalanced(d - 1, 2 * k, from, s[..|s| / 2]);
        NodeIsBalanced(d - 1, 2 * k + 1, from + |s| / 2, s[|s| / 2..]);
      }
    }

    /** A root is that of the balanced tree over the leaves in order, padded to the least sufficient power of two. */
    lemma RootIsBalanced(limit: nat)
      ensures Root(limit) == Balanced(PaddedLeaves(CeilLog2(limit)), CeilLog2(limit))
    {
      NodeIsBalanced(CeilLog2(limit), 0, 0, PaddedLeaves(CeilLog2(limit)));
    }

    /** Every leaf of the node lies at or beyond `count`. */
    predicate Empty(d: nat, k: nat) {
      count <= k * Pow2(d)
    }

    /** Every leaf of the node lies below `count`, or just its last leaf is number `count`. */
    predicate Full(d: nat, k: nat) {
      (k + 1) * Pow2(d) <= count + 1
    }

    lemma EmptyShr(d: nat, k: nat)
      ensures Empty(d, k) <==> count == 0 || Shr(count - 1, d) < k
    {
      if count > 0 { ShrGalois(count - 1, d, k); }
    }

    /** A node beyond the leaves is the precomputed zero hash of its height. */
    lemma {:induction false} EmptyIsZero(d: nat, k: nat)
      requires Empty(d, k)
      ensures Node(d, k) == Zero(d)
      decreases d
    {
      if d > 0 {
        assert k * Pow2(d) == (2 * k) * Pow2(d - 1);
        assert (2 * k) * Pow2(d - 1) <= (2 * k + 1) * Pow2(d - 1);
        EmptyIsZero(d - 1, 2 * k);
        EmptyIsZero(d - 1, 2 * k + 1);
      }
    }

    /** The node right of the one that holds leaf `count` is empty. */
    lemma RightOfCountIsZero(d: nat)
      ensures Node(d, Shr(count, d) + 1) == Zero(d)
    {
      if count > 0 { ShrMonotone(count - 1, count, d); }
      EmptyShr(d, Shr(count, d) + 1);
      EmptyIsZero(d, Shr(count, d) + 1);
    }

    /** The ancestor of leaf `i` at height `d`. */
    function Ancestor(i: nat, d: nat): C {
      Node(d, Shr(i, d))
    }

    /** A right child is merged with the node to its left. */
    lemma MergeLeft(i: nat, d: nat, left: C, h: C)
      requires Bit(i, d) && left == Node(d, Shr(i, d) - 1) && h == Ancestor(i, d)
      ensures combi(left, h) == Ancestor(i, d + 1)
    {
      assert 2 * Shr(i, d + 1) == Shr(i, d) - 1;
    }

    /** The ancestor of the first missing leaf is merged with the zeroes to its right. */
    lemma MergeZero(d: nat, h: C)
      requires !Bit(count, d) && h == Ancestor(count, d)
      ensures combi(h, Zero(d)) == Ancestor(count, d + 1)
    {
      assert 2 * Shr(count, d + 1) == Shr(count, d);
      RightOfCountIsZero(d);
    }

    /** A taller tree over the same leaves is the shorter one folded with zero hashes. */
    function Raise(root: C, d: nat, top: nat): C
      requires d <= top
      decreases top
    {
      if d == top then root else combi(Raise(root, d, top - 1), Zero(top - 1))
    }

    lemma {:induction false} RaisedRoot(d: nat, top: nat)
      requires count <= Pow2(d) && d <= top
      ensures Node(top, 0) == Raise(Node(d, 0), d, top)
    {
      if d < top {
        RaisedRoot(d, top - 1);
        Pow2Monotone(d, top - 1);
        EmptyIsZero(top - 1, 1);
      }
    }

    /** Raising the limit folds the old root with successive zero hashes. */
    lemma RaisedLimit(limit: nat, limit': nat)
      requires count <= limit <= limit'
      ensures CeilLog2(limit) <= CeilLog2(limit')
      ensures Root(limit') == Raise(Root(limit), CeilLog2(limit), CeilLog2(limit'))
    {
      CeilLog2Least(limit, CeilLog2(limit));
      CeilLog2Least(limit', CeilLog2(limit'));
      CeilLog2Least(limit, CeilLog2(limit'));
      RaisedRoot(CeilLog2(limit), CeilLog2(limit'));
    }

    /** Making the zero padding explicit changes no node. */
    lemma {:induction false} ExplicitZeroes(more: nat, d: nat, k: nat)
      requires count <= more && forall i :: count <= i < more ==> leaf(i) == zero
      ensures this.(count := more).Node(d, k) == Node(d, k)
      decreases d
    {
      if d > 0 {
        ExplicitZeroes(more, d - 1, 2 * k);
        ExplicitZeroes(more, d - 1, 2 * k + 1);
      }
    }

    /** A root only looks at the leaves below `count`. */
    lemma {:induction false} SameLeaves(that: PaddedTree<C>, d: nat, k: nat)
      requires that.combi == combi && that.zero == zero && that.count == count
      requires forall i :: 0 <= i < count ==> that.leaf(i) == leaf(i)
      ensures that.Node(d, k) == Node(d, k)
      decreases d
    {
      if d > 0 {
        SameLeaves(that, d - 1, 2 * k);
        SameLeaves(that, d - 1, 2 * k + 1);
      }
    }

    // ----- branches

    /** the node next to the ancestor of leaf `index` at height `d` */
    function Sibling(index: nat, d: nat): nat {
      var k := Shr(index, d);
      if k % 2 == 0 then k + 1 else k - 1
    }

    /** Verifies a branch: `acc` is the candidate for the ancestor of `index` at height `d`. */
    function Fold(branch: seq<C>, index: nat, d: nat, acc: C): C
      requires d <= |branch|
      decreases |branch| - d
    {
      if d == |branch| then acc
      else if Bit(index, d) then Fold(branch, index, d + 1, combi(branch[d], acc))
      else Fold(branch, index, d + 1, combi(acc, branch[d]))
    }

    ghost predicate Siblings(branch: seq<C>, index: nat, from: nat) {
      forall d :: from <= d < |branch| ==> branch[d] == Node(d, Sibling(index, d))
    }

    /** A branch of true siblings folds to the node above. */
    lemma {:induction false} FoldSound(branch: seq<C>, index: nat, d: nat)
      requires d <= |branch| && Siblings(branch, index, d)
      ensures Fold(branch, index, d, Node(d, Shr(index, d))) == Node(|branch|, Shr(index, |branch|))
      decreases |branch| - d
    {
      if d < |branch| { FoldSound(branch, index, d + 1); }
    }

    /** The pairs `a, b` and `c, d` are not a collision. */
    ghost predicate NoClash(a: C, b: C, c: C, d: C) {
      combi(a, b) == combi(c, d) ==> a == c && b == d
    }

    function FoldStep(branch: seq<C>, index: nat, d: nat, acc: C): C
      requires d < |branch|
    {
      if Bit(index, d) then combi(branch[d], acc) else combi(acc, branch[d])
    }

    /** No pair that folding hashes collides with the children of the node on the path to the root. */
    ghost predicate FoldApart(branch: seq<C>, index: nat, d: nat, acc: C)
      requires d <= |branch|
      decreases |branch| - d
    {
      d == |branch| || (
        var left, right := Node(d, 2 * Shr(index, d + 1)), Node(d, 2 * Shr(index, d + 1) + 1);
        && (if Bit(index, d) then NoClash(branch[d], acc, left, right) else NoClash(acc, branch[d], left, right))
        && FoldApart(branch, index, d + 1, FoldStep(branch, index, d, acc)))
    }

    /** Unless there is a collision on the way, only the true branch folds to the root. */
    lemma {:induction false} FoldComplete(branch: seq<C>, index: nat, d: nat, acc: C)
      requires d <= |branch| && FoldApart(branch, index, d, acc)
      requires Fold(branch, index, d, acc) == Node(|branch|, Shr(index, |branch|))
      ensures acc == Node(d, Shr(index, d)) && Siblings(branch, index, d)
      decreases |branch| - d
    {
      if d < |branch| {
        var up := FoldStep(branch, index, d, acc);
        FoldComplete(branch, index, d + 1, up);
        assert up == combi(Node(d, 2 * Shr(index, d + 1)), Node(d, 2 * Shr(index, d + 1) + 1));
      }
    }

    // ----- what a node tells about its leaves

    /** Position by position, the pairs below this node and that of the other tree are no collisions. */
    ghost predicate Apart(that: PaddedTree<C>, d: nat, k: nat)
      decreases d
    {
      d == 0 || (
        && NoClash(Node(d - 1, 2 * k), Node(d - 1, 2 * k + 1), that.Node(d - 1, 2 * k), that.Node(d - 1, 2 * k + 1))
        && Apart(that, d - 1, 2 * k)
        && Apart(that, d - 1, 2 * k + 1))
    }

    /** Unless there is a collision below, a node tells all leaves below it. */
    lemma {:induction false} NodeIsBinding(that: PaddedTree<C>, d: nat, k: nat, i: nat)
      requires that.combi == combi && Apart(that, d, k)
      requires that.Node(d, k) == Node(d, k) && k == Shr(i, d)
      ensures that.Node(0, i) == Node(0, i)
      decreases d
    {
      if d > 0 { NodeIsBinding(that, d - 1, Shr(i, d - 1), i); }
    }

    /** Unless there is a collision, a root tells all leaves. */
    lemma RootIsBinding(that: PaddedTree<C>, limit: nat, i: nat)
      requires that.combi == combi && that.count == count <= limit && Apart(that, CeilLog2(limit), 0)
      requires that.Root(limit) == Root(limit) && i < count
      ensures that.leaf(i) == leaf(i)
    {
      CeilLog2Least(limit, CeilLog2(limit));
      ShrZero(i, CeilLog2(limit));
      NodeIsBinding(that, CeilLog2(limit), 0, i);
    }

    /** Every leaf of the node is zero or missing. */
    ghost predicate AllZero(d: nat, k: nat) {
      forall i: nat :: i < count && Shr(i, d) == k ==> leaf(i) == zero
    }

    lemma EmptyIsAllZero(d: nat, k: nat)
      requires Empty(d, k)
      ensures AllZero(d, k)
    {
      forall i: nat | i < count ensures Shr(i, d) != k { ShrGalois(i, d, k); }
    }

    lemma {:induction false} AllZeroIsZero(d: nat, k: nat)
      requires AllZero(d, k)
      ensures Node(d, k) == Zero(d)
      decreases d
    {
      if d == 0 {
        assert Shr(k, 0) == k;
      } else {
        AllZeroBelow(d, k);
        AllZeroIsZero(d - 1, 2 * k);
        AllZeroIsZero(d - 1, 2 * k + 1);
      }
    }

    lemma AllZeroBelow(d: nat, k: nat)
      requires d > 0 && AllZero(d, k)
      ensures AllZero(d - 1, 2 * k) && AllZero(d - 1, 2 * k + 1)
    {
      forall i: nat | i < count && Shr(i, d - 1) / 2 == k ensures leaf(i) == zero { assert Shr(i, d) == k; }
    }

    lemma {:induction false} NodeOfNone(d: nat, k: nat)
      ensures this.(count := 0).Node(d, k) == Zero(d)
      decreases d
    {
      if d > 0 {
        NodeOfNone(d - 1, 2 * k);
        NodeOfNone(d - 1, 2 * k + 1);
      }
    }

    /** Unless there is a collision, only nodes of zero leaves have the zero hash. */
    lemma ZeroIsAllZero(d: nat, k: nat)
      requires Apart(this.(count := 0), d, k) && Node(d, k) == Zero(d)
      ensures AllZero(d, k)
    {
      NodeOfNone(d, k);
      forall i: nat | i < count && Shr(i, d) == k ensures leaf(i) == zero {
        NodeIsBinding(this.(count := 0), d, k, i);
      }
    }

    // ----- functions without any collisions

    /** No two different pairs of chunks have the same `combi`. */
    ghost predicate CollisionFree() {
      forall a, b, c, d :: NoClash(a, b, c, d)
    }

    lemma {:induction false} CollisionFreeFold(branch: seq<C>, index: nat, d: nat, acc: C)
      requires CollisionFree() && d <= |branch|
      ensures FoldApart(branch, index, d, acc)
      decreases |branch| - d
    {
      if d < |branch| { CollisionFreeFold(branch, index, d + 1, FoldStep(branch, index, d, acc)); }
    }

    lemma {:induction false} CollisionFreeApart(that: PaddedTree<C>, d: nat, k: nat)
      requires CollisionFree()
      ensures Apart(that, d, k)
      decreases d
    {
      if d > 0 {
        CollisionFreeApart(that, d - 1, 2 * k);
        CollisionFreeApart(that, d - 1, 2 * k + 1);
      }
    }
  }

  /** The free algebra of chunks, in which hashing has no collisions at all. */
  datatype Term = Chunk(data: seq<int>) | Pair(left: Term, right: Term) | Mixed(root: Term, length: nat)

  function FreeTree(count: nat): PaddedTree<Term> {
    PaddedTree((a, b) => Pair(a, b), Chunk([0]), i => Chunk([i + 1]), count)
  }

  lemma FreeTreeIsCollisionFree(count: nat)
    ensures FreeTree(count).CollisionFree()
  {
  }
}
