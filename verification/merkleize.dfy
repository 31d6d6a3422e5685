/**
 Streaming merkleization (merkle/merkleize.go): the root of a virtual tree with room for
 `limit` leaves from `GetDepth(limit) + 1` slots, and merkle branches by the same loop.
 Both are proved to refine the recursive tree of `MerkleTree`.
 */
module Merkleize {
  import opened Bits
  import opened MerkleTree
  import opened Outcomes

  /** What `GetDepth` computes: 0 and 1 are special, all else is the least sufficient depth. */
  function Depth(v: nat): nat {
    if v == 1 then 1 else CeilLog2(v)
  }

  ghost predicate IsLeastDepth(v: nat, out: nat) {
    forall d: nat :: v <= Pow2(d) <==> out <= d
  }

  lemma CeilLog2IsLeast(v: nat)
    ensures IsLeastDepth(v, CeilLog2(v))
  {
    forall d: nat ensures v <= Pow2(d) <==> CeilLog2(v) <= d { CeilLog2Least(v, d); }
  }

  /** A binary search for the top bit of `v - 1`, offset by one. */
  method GetDepth(v: nat) returns (out: nat)
    requires v < TWO_64
    ensures out == Depth(v) <= 64
    ensures v == 0 ==> out == 0
    ensures v == 1 ==> out == 1
    ensures v >= 2 ==> IsLeastDepth(v, out)
  {
    if v == 0 { return 0; }
    out := TopBit(v - 1);
    out := out + 1;
    if v >= 2 { CeilLog2IsBitLen(v); }
    CeilLog2IsLeast(v);
  }

  method TopBit(v: nat) returns (out: nat)
    requires v < TWO_64
    ensures out <= 63 && out + 1 == if v == 0 then 1 else BitLen(v)
  {
    var w;
    Pow2Constants();
    w, out := Halve(v, 32, 0x1_0000_0000, 0);
    w, out := Halve(w, 16, 0x1_0000, out);
    w, out := Halve(w, 8, 0x100, out);
    w, out := Halve(w, 4, 16, out);
    w, out := Halve(w, 2, 4, out);
    assert w < 4 && BitLen(w / 2) == w / 2;
    if w / 2 != 0 { out := out + 1; }
  }

  /** One step of the search: if any bit at or above `k` is set, drop the `k` bits below. */
  method Halve(v: nat, k: nat, ghost half: nat, acc: nat) returns (w: nat, out: nat)
    requires half == Pow2(k) && v < half * half
    ensures w < half && acc <= out <= acc + k
    ensures w == 0 <==> v == 0
    ensures out + BitLen(w) == acc + BitLen(v)
  {
    ShrGalois(v, k, half);
    ShrZero(v, k);
    if Shr(v, k) != 0 {
      BitLenShr(v, k);
      w, out := Shr(v, k), acc + k;
      if v == 0 { ShrOfZero(k); }
    } else {
      w, out := v, acc;
    }
  }

  lemma DepthMonotone(a: nat, b: nat)
    requires a <= b && b >= 2
    ensures Depth(a) <= Depth(b)
    ensures a <= Pow2(Depth(a)) <= Pow2(Depth(b))
  {
    CeilLog2Least(b, CeilLog2(b));
    CeilLog2Least(b, 0);
    CeilLog2Least(a, CeilLog2(a));
    CeilLog2Least(a, CeilLog2(b));
    Pow2Monotone(Depth(a), Depth(b));
  }

  /** The table that `InitZeroHashes` prepares for the hash function in use. */
  ghost predicate IsZeroTable<C(!new)>(tree: PaddedTree<C>, zeroHashes: seq<C>) {
    |zeroHashes| == 65 && forall j :: 0 <= j <= 64 ==> zeroHashes[j] == tree.Zero(j)
  }

  /**
   After `n` leaves, the slot of every bit set in `n` holds the root of a block of leaves:
   the block that ends where the blocks of the lower set bits begin.
   */
  ghost predicate Carried<C(!new)>(tree: PaddedTree<C>, tmp: seq<C>, n: nat) {
    forall k :: 0 <= k < |tmp| && Bit(n, k) ==> tmp[k] == tree.Node(k, Shr(n, k) - 1)
  }

  /** Where merging leaf `i` may be called: a leaf, or the first padding position. */
  ghost predicate MayMerge<C(!new)>(tree: PaddedTree<C>, i: nat, depth: nat) {
    i <= tree.count <= Pow2(depth) && (i == tree.count ==> tree.count < Pow2(depth))
  }

  /** Where merging leaf `i` stops: in the left side of a merge, with nothing left to pad. */
  ghost predicate StopsAt<C(!new)>(tree: PaddedTree<C>, i: nat, depth: nat, j: nat) {
    !Bit(i, j) && if i < tree.count then CarryAt(i, j) && j <= depth else j == depth
  }

  /** `h` is the ancestor of leaf `i` at height `j`, and if `i` is a leaf, all merges below were from the right. */
  ghost predicate Climbing<C(!new)>(tree: PaddedTree<C>, i: nat, depth: nat, j: nat, h: C) {
    MayMerge(tree, i, depth) && j <= depth && h == tree.Ancestor(i, j) && (i < tree.count ==> CarryAt(i, j))
  }

  /** One round of the merging loop: stop on the left side of a merge, or combine once and go up. */
  method ClimbOne<C(!new)>(tree: PaddedTree<C>, zeroHashes: seq<C>, tmp: array<C>, i: nat, depth: nat, j: nat, h: C)
    returns (stop: bool, up: C, ghost combis: nat)
    requires IsZeroTable(tree, zeroHashes) && depth < tmp.Length <= 65
    requires Carried(tree, tmp[..], i) && Climbing(tree, i, depth, j, h)
    ensures stop ==> StopsAt(tree, i, depth, j) && up == h
    ensures !stop ==> j < depth && Climbing(tree, i, depth, j + 1, up)
    ensures combis == if stop then 0 else 1
  {
    ShrZero(i, depth);
    if !Bit(i, j) {
      // at the count, zero hashes are merged in for padding
      if i == tree.count && j < depth {
        tree.MergeZero(j, h);
        return false, tree.combi(h, zeroHashes[j]), 1;
      } else {
        return true, h, 0;
      }
    } else {
      assert tmp[..][j] == tmp[j];
      tree.MergeLeft(i, j, tmp[j], h);
      if i < tree.count { CarryOn(i, j); }
      return false, tree.combi(tmp[j], h), 1;
    }
  }

  /**
   Merges leaf number `i` back up, as far as possible.  The loop of the source has no bound:
   it ends, at or below `depth`, because `i < 2^depth`.
   */
  method Climb<C(!new)>(tree: PaddedTree<C>, zeroHashes: seq<C>, tmp: array<C>, i: nat, depth: nat, leaf: C)
    returns (h: C, j: nat, ghost combis: nat)
    requires IsZeroTable(tree, zeroHashes) && MayMerge(tree, i, depth)
    requires depth < tmp.Length <= 65
    requires Carried(tree, tmp[..], i) && leaf == tree.Ancestor(i, 0)
    ensures StopsAt(tree, i, depth, j) && h == tree.Ancestor(i, j)
    ensures combis == j
  {
    h, j, combis := leaf, 0, 0;
    while true
      invariant Climbing(tree, i, depth, j, h) && combis == j
      decreases depth - j
    {
      var stop;
      ghost var calls;
      stop, h, calls := ClimbOne(tree, zeroHashes, tmp, i, depth, j, h);
      combis := combis + calls;
      if stop { break; }
      j := j + 1;
    }
  }

  /** Merges leaf number `i` and stores the result, which may be the leaf itself. */
  method Merge<C(!new)>(tree: PaddedTree<C>, zeroHashes: seq<C>, tmp: array<C>, i: nat, depth: nat, leaf: C)
    returns (ghost combis: nat)
    requires IsZeroTable(tree, zeroHashes) && MayMerge(tree, i, depth)
    requires depth < tmp.Length <= 65
    requires Carried(tree, tmp[..], i) && leaf == tree.Ancestor(i, 0)
    modifies tmp
    ensures i < tree.count ==>
              Carried(tree, tmp[..], i + 1) && combis + PopCount(i + 1) == PopCount(i) + 1
    ensures i == tree.count ==> tmp[depth] == tree.Node(depth, 0) && combis == depth
  {
    var h, j;
    h, j, combis := Climb(tree, zeroHashes, tmp, i, depth, leaf);
    tmp[j] := h;
    if i < tree.count {
      CountCarry(i, j);
      assert tmp[..] == old(tmp[..])[j := h];
      AfterCarry(tree, old(tmp[..]), tmp[..], i, j);
    } else {
      ShrZero(i, depth);
    }
  }

  /** The carry clears `j` bits and sets one. */
  lemma CountCarry(i: nat, j: nat)
    requires CarryAt(i, j) && !Bit(i, j)
    ensures j + PopCount(i + 1) == PopCount(i) + 1
  {
    PopCountTrailing(i, j);
    EvenPopCount(Shr(i, j));
  }

  lemma EvenPopCount(x: nat)
    requires x % 2 == 0
    ensures PopCount(x + 1) == PopCount(x) + 1
  {
    assert (x + 1) / 2 == x / 2;
  }

  lemma AfterCarry<C(!new)>(tree: PaddedTree<C>, before: seq<C>, after: seq<C>, i: nat, j: nat)
    requires Carried(tree, before, i) && j < |before| && after == before[j := tree.Node(j, Shr(i, j))]
    requires !Bit(i, j) && CarryAt(i, j)
    ensures Carried(tree, after, i + 1)
  {
    forall k | 0 <= k < |after| && Bit(i + 1, k)
      ensures after[k] == tree.Node(k, Shr(i + 1, k) - 1)
    {
      if k > j {
        CarryStops(i, j + 1, k);
        assert Bit(i, k);
      }
    }
  }

  /** the number of `combi` calls of `Merkleize`, for a limit of two or more */
  function CombiCalls(count: nat, limit: nat): int {
    var padding := if count == Pow2(Depth(count)) then 0 else Depth(count);
    count - PopCount(count) + padding + (Depth(limit) - Depth(count))
  }

  lemma CombiCallsBound(count: nat, limit: nat)
    requires count <= limit && limit >= 2
    ensures 0 <= CombiCalls(count, limit) <= count + Depth(limit)
  {
    PopCountBound(count);
    DepthMonotone(count, limit);
  }

  method Merkleize<C(!new)>(tree: PaddedTree<C>, zeroHashes: seq<C>, limit: nat)
    returns (out: Outcome<C>, ghost combis: nat)
    requires IsZeroTable(tree, zeroHashes) && limit < TWO_64
    ensures out == if tree.count > limit then Panic else Done(tree.Root(limit))
    ensures 2 <= limit && tree.count <= limit ==> combis == CombiCalls(tree.count, limit)
  {
    combis := 0;
    var count := tree.count;
    if count > limit { return Panic, combis; }
    if limit == 0 { return Done(tree.zero), combis; }
    if limit == 1 {
      return Done(if count == 1 then tree.leaf(0) else tree.zero), combis;
    }
    var depth := GetDepth(count);
    var limitDepth := GetDepth(limit);
    DepthMonotone(count, limit);
    var tmp := new C[limitDepth + 1](_ => tree.zero);
    ghost var merges := MergeLeaves(tree, zeroHashes, tmp, depth);
    ghost var extras := Extend(tree, zeroHashes, tmp, depth, limitDepth);
    return Done(tmp[limitDepth]), merges + extras;
  }

  /** Merges in leaf by leaf, and pads with zeroes if there is no power of two leaves. */
  method MergeLeaves<C(!new)>(tree: PaddedTree<C>, zeroHashes: seq<C>, tmp: array<C>, depth: nat)
    returns (ghost combis: nat)
    requires IsZeroTable(tree, zeroHashes)
    requires depth == Depth(tree.count) < tmp.Length <= 65 && tree.count <= Pow2(depth)
    modifies tmp
    ensures tmp[depth] == tree.Node(depth, 0)
    ensures combis + PopCount(tree.count) == tree.count + if tree.count == Pow2(depth) then 0 else depth
  {
    var count := tree.count;
    combis := 0;
    CarriedNothing(tree, tmp[..]);
    for i := 0 to count
      invariant Carried(tree, tmp[..], i)
      invariant combis + PopCount(i) == i
    {
      ghost var more := Merge(tree, zeroHashes, tmp, i, depth, tree.leaf(i));
      combis := combis + more;
    }
    if Pow2(depth) != count {
      ghost var more := Merge(tree, zeroHashes, tmp, count, depth, zeroHashes[0]);
      combis := combis + more;
    } else {
      ShrOfPow2(depth, depth);
      assert Bit(count, depth) && tmp[..][depth] == tmp[depth];
    }
  }

  lemma CarriedNothing<C(!new)>(tree: PaddedTree<C>, tmp: seq<C>)
    ensures Carried(tree, tmp, 0)
  {
    forall k ensures !Bit(0, k) { ShrOfZero(k); }
  }

  /** Complements with the zero hash of each depth up to the virtual size. */
  method Extend<C(!new)>(tree: PaddedTree<C>, zeroHashes: seq<C>, tmp: array<C>, depth: nat, limitDepth: nat)
    returns (ghost combis: nat)
    requires IsZeroTable(tree, zeroHashes) && depth <= limitDepth && tmp.Length == limitDepth + 1 <= 65
    requires tree.count <= Pow2(depth) && tmp[depth] == tree.Node(depth, 0)
    modifies tmp
    ensures tmp[limitDepth] == tree.Node(limitDepth, 0)
    ensures combis == limitDepth - depth
  {
    combis := 0;
    for j := depth to limitDepth
      invariant tmp[j] == tree.Node(j, 0) && combis == j - depth
    {
      Pow2Monotone(depth, j);
      tree.EmptyIsZero(j, 1);
      tmp[j + 1] := tree.combi(tmp[j], zeroHashes[j]);
      combis := combis + 1;
    }
  }

  // ----- branches

  /** What `ConstructProof` delivers at height `d`. */
  function BranchEntry<C(!new)>(tree: PaddedTree<C>, index: nat, d: nat): C {
    if tree.Full(d, tree.Sibling(index, d)) then tree.Node(d, tree.Sibling(index, d)) else tree.Zero(d)
  }

  function Branch<C(!new)>(tree: PaddedTree<C>, limit: nat, index: nat): (branch: seq<C>) {
    if limit <= 1 then [] else seq(Depth(limit), d requires 0 <= d => BranchEntry(tree, index, d))
  }

  /** The branch once all siblings that end below leaf `n` have been collected. */
  ghost predicate Collected<C(!new)>(tree: PaddedTree<C>, branch: seq<C>, index: nat, n: nat) {
    forall d :: 0 <= d < |branch| ==>
      branch[d] == if tree.Sibling(index, d) < Shr(n, d) then tree.Node(d, tree.Sibling(index, d)) else tree.Zero(d)
  }

  /** As `Collected`, when merging leaf `i` has come as far as height `j`. */
  ghost predicate CollectedTo<C(!new)>(tree: PaddedTree<C>, branch: seq<C>, index: nat, i: nat, j: nat) {
    forall d :: 0 <= d < |branch| ==>
      branch[d] == if tree.Sibling(index, d) < Shr(if d < j then i + 1 else i, d)
                   then tree.Node(d, tree.Sibling(index, d)) else tree.Zero(d)
  }

  /** The node of leaf `i` at height `j` is a sibling of `index`, and leaf `i` is its last leaf. */
  predicate EndsSibling<C(!new)>(tree: PaddedTree<C>, index: nat, i: nat, j: nat) {
    tree.Sibling(i, j) == Shr(index, j) && forall k :: 0 <= k < j ==> Bit(i, k)
  }

  /** Leaf `i` completes the sibling of `index` at height `j` exactly if it ends it. */
  lemma CollectAt<C(!new)>(tree: PaddedTree<C>, index: nat, i: nat, j: nat)
    ensures EndsSibling(tree, index, i, j) ==> tree.Sibling(index, j) == Shr(i, j) < Shr(i + 1, j)
    ensures !EndsSibling(tree, index, i, j) ==>
              (tree.Sibling(index, j) < Shr(i + 1, j) <==> tree.Sibling(index, j) < Shr(i, j))
  {
    CarryReaches(i, j);
  }

  lemma CollectOne<C(!new)>(tree: PaddedTree<C>, before: seq<C>, index: nat, i: nat, j: nat)
    requires CollectedTo(tree, before, index, i, j) && index < Pow2(|before|) && j <= |before|
    requires i < Pow2(|before|)
    ensures EndsSibling(tree, index, i, j) ==> j < |before|
    ensures !EndsSibling(tree, index, i, j) ==> CollectedTo(tree, before, index, i, j + 1)
    ensures EndsSibling(tree, index, i, j) ==>
              CollectedTo(tree, before[j := tree.Node(j, Shr(i, j))], index, i, j + 1)
  {
    CollectAt(tree, index, i, j);
    ShrZero(index, |before|);
    ShrZero(i, |before|);
  }

  /** Where the merge of leaf `i` stops, its carry has ended. */
  lemma CarryEnds<C(!new)>(tree: PaddedTree<C>, i: nat, j: nat, depth: nat)
    requires MayMerge(tree, i, depth) && StopsAt(tree, i, depth, j)
    ensures Shr(i + 1, j + 1) == Shr(i, j + 1)
  {
    if i == tree.count {
      ShrZero(i, depth);
      ShrZero(i + 1, depth + 1);
    }
  }

  lemma CollectedAll<C(!new)>(tree: PaddedTree<C>, branch: seq<C>, index: nat, i: nat, j: nat)
    requires CollectedTo(tree, branch, index, i, j + 1)
    requires Shr(i + 1, j + 1) == Shr(i, j + 1)
    ensures Collected(tree, branch, index, i + 1)
  {
    forall d | j < d ensures Shr(i + 1, d) == Shr(i, d) { CarryStops(i, j + 1, d); }
  }

  /**
   As `Climb`, but a subtree that is complete at leaf `i` is also put in the branch if it is
   a sibling on the path from `index` to the root.
   */
  method ClimbProof<C(!new)>(tree: PaddedTree<C>, zeroHashes: seq<C>, tmp: array<C>, branch: array<C>,
                             index: nat, i: nat, depth: nat, leaf: C)
    returns (h: C, j: nat)
    requires IsZeroTable(tree, zeroHashes) && MayMerge(tree, i, depth)
    requires branch != tmp && depth <= branch.Length && tmp.Length == branch.Length + 1 <= 65
    requires index < Pow2(branch.Length)
    requires Carried(tree, tmp[..], i) && leaf == tree.Ancestor(i, 0)
    requires Collected(tree, branch[..], index, i)
    modifies branch
    ensures StopsAt(tree, i, depth, j) && h == tree.Ancestor(i, j)
    ensures CollectedTo(tree, branch[..], index, i, j + 1)
  {
    h, j := leaf, 0;
    ghost var slots := tmp[..];
    Pow2Monotone(depth, branch.Length);
    while true
      invariant Climbing(tree, i, depth, j, h) && tmp[..] == slots
      invariant CollectedTo(tree, branch[..], index, i, j)
      decreases depth - j
    {
      CollectOne(tree, branch[..], index, i, j);
      if EndsSibling(tree, index, i, j) {
        branch[j] := h;
      }
      var stop;
      ghost var calls;
      stop, h, calls := ClimbOne(tree, zeroHashes, tmp, i, depth, j, h);
      if stop { break; }
      j := j + 1;
    }
  }

  method MergeProof<C(!new)>(tree: PaddedTree<C>, zeroHashes: seq<C>, tmp: array<C>, branch: array<C>,
                             index: nat, i: nat, depth: nat, leaf: C)
    requires IsZeroTable(tree, zeroHashes) && MayMerge(tree, i, depth)
    requires branch != tmp && depth <= branch.Length && tmp.Length == branch.Length + 1 <= 65
    requires index < Pow2(branch.Length)
    requires Carried(tree, tmp[..], i) && leaf == tree.Ancestor(i, 0)
    requires Collected(tree, branch[..], index, i)
    modifies tmp, branch
    ensures i < tree.count ==> Carried(tree, tmp[..], i + 1)
    ensures Collected(tree, branch[..], index, i + 1)
  {
    var h, j := ClimbProof(tree, zeroHashes, tmp, branch, index, i, depth, leaf);
    tmp[j] := h;
    if i < tree.count { AfterCarry(tree, old(tmp[..]), tmp[..], i, j); }
    CarryEnds(tree, i, j, depth);
    CollectedAll(tree, branch[..], index, i, j);
  }

  method ConstructProof<C(!new)>(tree: PaddedTree<C>, zeroHashes: seq<C>, limit: nat, index: nat)
    returns (out: Outcome<seq<C>>)
    requires IsZeroTable(tree, zeroHashes) && limit < TWO_64
    ensures out == if tree.count > limit || index >= limit then Panic else Done(Branch(tree, limit, index))
    ensures out.Done? && limit <= 1 ==> out.value == []
    ensures out.Done? && limit >= 2 ==> IsLeastDepth(limit, |out.value|)
    ensures forall d :: out.Done? && 0 <= d < |out.value| ==>
              out.value[d] == if tree.Full(d, tree.Sibling(index, d)) then tree.Node(d, tree.Sibling(index, d))
                              else tree.Zero(d)
  {
    CeilLog2IsLeast(limit);
    var count := tree.count;
    if count > limit { return Panic; }
    if index >= limit { return Panic; }
    if limit <= 1 { return Done([]); }
    var depth := GetDepth(count);
    var limitDepth := GetDepth(limit);
    DepthMonotone(count, limit);
    CeilLog2Least(limit, limitDepth);
    var branch := new C[limitDepth](d requires 0 <= d < limitDepth => zeroHashes[d]);
    var tmp := new C[limitDepth + 1](_ => tree.zero);

    forall k ensures Shr(0, k) == 0 { ShrOfZero(k); }
    CollectLeaves(tree, zeroHashes, tmp, branch, index, depth);
    CollectedIsBranch(tree, branch[..], limit, index);
    return Done(branch[..]);
  }

  /** As `MergeLeaves`, but the siblings of `index` are also put in the branch. */
  method CollectLeaves<C(!new)>(tree: PaddedTree<C>, zeroHashes: seq<C>, tmp: array<C>, branch: array<C>,
                                index: nat, depth: nat)
    requires IsZeroTable(tree, zeroHashes)
    requires depth == Depth(tree.count) && tree.count <= Pow2(depth)
    requires branch != tmp && depth <= branch.Length && tmp.Length == branch.Length + 1 <= 65
    requires index < Pow2(branch.Length) && Collected(tree, branch[..], index, 0)
    modifies tmp, branch
    ensures Collected(tree, branch[..], index, tree.count + 1)
  {
    var count := tree.count;
    CarriedNothing(tree, tmp[..]);
    for i := 0 to count
      invariant Carried(tree, tmp[..], i) && Collected(tree, branch[..], index, i)
    {
      MergeProof(tree, zeroHashes, tmp, branch, index, i, depth, tree.leaf(i));
    }
    if Pow2(depth) != count {
      MergeProof(tree, zeroHashes, tmp, branch, index, count, depth, zeroHashes[0]);
    } else {
      PowerOfTwoCollected(tree, branch[..], index, depth);
    }
  }

  /** With a power of two leaves, leaf `count` completes no sibling but itself, a zero. */
  lemma PowerOfTwoCollected<C(!new)>(tree: PaddedTree<C>, branch: seq<C>, index: nat, depth: nat)
    requires depth > 0 && tree.count == Pow2(depth) && Collected(tree, branch, index, tree.count)
    ensures Collected(tree, branch, index, tree.count + 1)
  {
    forall d | 0 < d < |branch| ensures Shr(tree.count + 1, d) == Shr(tree.count, d) {
      CarryStops(tree.count, 1, d);
    }
  }

  lemma CollectedIsBranch<C(!new)>(tree: PaddedTree<C>, branch: seq<C>, limit: nat, index: nat)
    requires limit >= 2 && |branch| == Depth(limit) && Collected(tree, branch, index, tree.count + 1)
    ensures branch == Branch(tree, limit, index)
  {
    forall d | 0 <= d < |branch| ensures branch[d] == BranchEntry(tree, index, d) {
      ShrGalois(tree.count + 1, d, tree.Sibling(index, d) + 1);
    }
  }

  /** At every height the sibling of `index` is full, or ends at leaf `count`, or has only zero leaves. */
  ghost predicate Provable<C(!new)>(tree: PaddedTree<C>, limit: nat, index: nat) {
    forall d :: 0 <= d < Depth(limit) ==>
      tree.Full(d, tree.Sibling(index, d)) || tree.AllZero(d, tree.Sibling(index, d))
  }

  /** Each entry of the branch is the true sibling where that sibling is full or zero. */
  lemma BranchEntryIsSibling<C(!new)>(tree: PaddedTree<C>, index: nat, d: nat)
    requires tree.Full(d, tree.Sibling(index, d)) || tree.AllZero(d, tree.Sibling(index, d))
    ensures BranchEntry(tree, index, d) == tree.Node(d, tree.Sibling(index, d))
  {
    if tree.AllZero(d, tree.Sibling(index, d)) { tree.AllZeroIsZero(d, tree.Sibling(index, d)); }
  }

  /** A constructed branch proves the leaf at `index` against the root that `Merkleize` returns. */
  lemma ProofVerifies<C(!new)>(tree: PaddedTree<C>, limit: nat, index: nat)
    requires tree.count <= limit && 2 <= limit && index < limit && Provable(tree, limit, index)
    ensures tree.Fold(Branch(tree, limit, index), index, 0, tree.Node(0, index)) == tree.Root(limit)
  {
    var branch := Branch(tree, limit, index);
    forall d | 0 <= d < |branch| ensures branch[d] == tree.Node(d, tree.Sibling(index, d)) {
      BranchEntryIsSibling(tree, index, d);
    }
    tree.FoldSound(branch, index, 0);
    CeilLog2Least(limit, CeilLog2(limit));
    ShrZero(index, CeilLog2(limit));
  }

  /** No collision among the pairs of the fold, and of the siblings against trees of zeroes. */
  ghost predicate ProofApart<C(!new)>(tree: PaddedTree<C>, limit: nat, index: nat) {
    && tree.FoldApart(Branch(tree, limit, index), index, 0, tree.Node(0, index))
    && forall d :: 0 <= d < Depth(limit) ==> tree.Apart(tree.(count := 0), d, tree.Sibling(index, d))
  }

  /**
   The exact condition: unless there is a collision, a constructed branch verifies if and only if no
   sibling on the path is partially filled and has a leaf that is not zero.
   */
  lemma ProofVerifiesExactly<C(!new)>(tree: PaddedTree<C>, limit: nat, index: nat)
    requires tree.count <= limit && 2 <= limit && index < limit && ProofApart(tree, limit, index)
    ensures tree.Fold(Branch(tree, limit, index), index, 0, tree.Node(0, index)) == tree.Root(limit)
            <==> Provable(tree, limit, index)
  {
    if Provable(tree, limit, index) {
      ProofVerifies(tree, limit, index);
    } else if tree.Fold(Branch(tree, limit, index), index, 0, tree.Node(0, index)) == tree.Root(limit) {
      OnlyProvable(tree, limit, index);
    }
  }

  lemma OnlyProvable<C(!new)>(tree: PaddedTree<C>, limit: nat, index: nat)
    requires 2 <= limit && index < limit && ProofApart(tree, limit, index)
    requires tree.Fold(Branch(tree, limit, index), index, 0, tree.Node(0, index)) == tree.Root(limit)
    ensures Provable(tree, limit, index)
  {
    var branch := Branch(tree, limit, index);
    CeilLog2Least(limit, CeilLog2(limit));
    ShrZero(index, CeilLog2(limit));
    tree.FoldComplete(branch, index, 0, tree.Node(0, index));
    forall d | 0 <= d < Depth(limit)
      ensures tree.Full(d, tree.Sibling(index, d)) || tree.AllZero(d, tree.Sibling(index, d))
    {
      assert branch[d] == BranchEntry(tree, index, d);
      if !tree.Full(d, tree.Sibling(index, d)) { tree.ZeroIsAllZero(d, tree.Sibling(index, d)); }
    }
  }

  lemma CollisionFreeProof<C(!new)>(tree: PaddedTree<C>, limit: nat, index: nat)
    requires tree.CollisionFree()
    ensures ProofApart(tree, limit, index)
  {
    tree.CollisionFreeFold(Branch(tree, limit, index), index, 0, tree.Node(0, index));
    forall d | 0 <= d < Depth(limit) ensures tree.Apart(tree.(count := 0), d, tree.Sibling(index, d)) {
      tree.CollisionFreeApart(tree.(count := 0), d, tree.Sibling(index, d));
    }
  }

  /** With `2^k` or `2^k - 1` leaves, every leaf position below `2^k` can be proved. */
  lemma PowerOfTwoIsProvable<C(!new)>(tree: PaddedTree<C>, k: nat, limit: nat, index: nat)
    requires tree.count == Pow2(k) || tree.count + 1 == Pow2(k)
    requires tree.count <= limit && 2 <= limit && index < limit && index < Pow2(k)
    ensures Provable(tree, limit, index)
  {
    forall d | 0 <= d < Depth(limit)
      ensures tree.Full(d, tree.Sibling(index, d)) || tree.AllZero(d, tree.Sibling(index, d))
    {
      if d < k {
        SiblingBelow(tree, index, d, k);
      } else {
        ShrZeroAbove(index, k, d);
        Pow2Monotone(k, d);
        assert tree.Sibling(index, d) == 1;
        tree.EmptyIsAllZero(d, 1);
      }
    }
  }

  lemma SiblingBelow<C(!new)>(tree: PaddedTree<C>, index: nat, d: nat, k: nat)
    requires index < Pow2(k) && d < k
    ensures (tree.Sibling(index, d) + 1) * Pow2(d) <= Pow2(k)
  {
    ShrBelow(index, d, k, Pow2(k - d));
    SiblingBlock(tree, index, d, Pow2(k - d), Pow2(k - d - 1));
    BlocksBelow(tree.Sibling(index, d) + 1, Pow2(k - d), Pow2(d), Pow2(k));
  }

  lemma SiblingBlock<C(!new)>(tree: PaddedTree<C>, index: nat, d: nat, blocks: nat, half: nat)
    requires Shr(index, d) < blocks == 2 * half
    ensures tree.Sibling(index, d) + 1 <= blocks
  {
  }

  lemma BlocksBelow(n: nat, blocks: nat, size: nat, total: nat)
    requires n <= blocks && blocks * size == total
    ensures n * size <= total
  {
    assert blocks * size == n * size + (blocks - n) * size;
  }

  lemma ShrBelow(index: nat, d: nat, k: nat, blocks: nat)
    requires index < Pow2(k) && d <= k && blocks == Pow2(k - d)
    ensures Shr(index, d) < blocks && blocks * Pow2(d) == Pow2(k)
  {
    Pow2Sum(k - d, d);
    ShrGalois(index, d, blocks);
  }

  /** The third sibling of leaf 0 among 5 leaves of 8 holds leaf 4 only. */
  lemma FiveOfEightIsPartial()
    ensures !Provable(FreeTree(5), 8, 0)
  {
    var tree := FreeTree(5);
    assert Depth(8) == 3 && Shr(0, 2) == 0 && Pow2(2) == 4;
    assert tree.Sibling(0, 2) == 1 && !tree.Full(2, 1);
    assert Shr(4, 1) == 2 && Shr(4, 2) == 1 && tree.leaf(4) != tree.zero;
  }

  lemma UnprovableFails<C(!new)>(tree: PaddedTree<C>, limit: nat, index: nat, leaf: C)
    requires tree.count <= limit && 2 <= limit && index < limit && leaf == tree.Node(0, index)
    requires tree.CollisionFree() && !Provable(tree, limit, index)
    ensures tree.Fold(Branch(tree, limit, index), index, 0, leaf) != tree.Root(limit)
  {
    CollisionFreeProof(tree, limit, index);
    ProofVerifiesExactly(tree, limit, index);
  }

  /** So the branch of leaf 0 does not verify. */
  lemma FiveOfEightFails()
    ensures FreeTree(5).Fold(Branch(FreeTree(5), 8, 0), 0, 0, Chunk([1])) != FreeTree(5).Root(8)
  {
    FreeTreeIsCollisionFree(5);
    FiveOfEightIsPartial();
    UnprovableFails(FreeTree(5), 8, 0, Chunk([1]));
  }
}
